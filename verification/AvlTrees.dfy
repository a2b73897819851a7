/**
The AVL tree with parent links: insertion, deletion, search, largest node, in-order walk and destruction, all in place.
 */
module AvlTrees {
  import opened AvlShape
  import opened AvlRotations
  import opened AvlSteps
  import opened AvlRemoval
  import opened Sequences

  /** The subtree below a node of the tree hangs in the rest of the tree. */
  lemma LocatedAt(ctx: Path, sub: Tree, t: Tree, p: Node?, n: Node)
    requires Plug(ctx, sub) == t && sub.Fork? && sub.node == n && Apart(t) && Links(t, p, null)
    ensures At(ctx, sub, n)
  {
    LinksPlug(ctx, sub, n);
    RootOfPlug(ctx, sub);
    RootInNodes(t, p, null);
  }

  lemma {:induction false} RootOfPlug(ctx: Path, sub: Tree)
    requires sub.Fork?
    ensures TreeRoot(Plug(ctx, sub)) == RootOf(ctx, sub.node)
    decreases ctx
  {
    match ctx
    case Top =>
    case InLeft(up, n, b, r) => RootOfPlug(up, Fork(sub, n, b, r));
    case InRight(l, n, b, up) => RootOfPlug(up, Fork(l, n, b, sub));
  }

  /** The contents without the root of a subtree. */
  lemma RemovedFrom(ctx: Path, sub: Tree)
    requires sub.Fork? && Apart(Plug(ctx, sub)) && Ordered(InOrder(Plug(ctx, sub)))
    ensures var a, b := Before(ctx) + InOrder(sub.left), InOrder(sub.right) + After(ctx);
      && Removed(InOrder(Plug(ctx, sub)), sub.node) == a + b && Ordered(a + b)
      && |InOrder(Plug(ctx, sub))| == |a + b| + 1
    ensures Nodes(Plug(ctx, sub)) == Nodes(sub.left) + Nodes(sub.right) + PathNodes(ctx) + {sub.node}
    ensures sub.node !in Nodes(sub.left) + Nodes(sub.right) + PathNodes(ctx)
  {
    var Fork(l, n, _, r) := sub;
    var a, b := Before(ctx) + InOrder(l), InOrder(r) + After(ctx);
    PlugInOrder(ctx, sub);
    PlugNodes(ctx, sub);
    LinksPlug(ctx, sub, n);
    Around(Before(ctx), InOrder(l), n, InOrder(r), After(ctx));
    OrderedWithoutMiddle(a, n, b);
    assert n !in a;
    RemovedBetween(a, n, b);
  }

  lemma Around(u: seq<Node>, l: seq<Node>, n: Node, r: seq<Node>, v: seq<Node>)
    ensures u + (l + [n] + r) + v == (u + l) + [n] + (r + v)
  {}

  lemma NotInTree(ctx: Path, k: int)
    requires AllBelow(Before(ctx), k) && AllAbove(After(ctx), k)
    ensures forall m :: m in InOrder(Plug(ctx, Leaf)) ==> m.key != k
  {
    hide Before, After, AllBelow, AllAbove;
    PlugInOrder(ctx, Leaf);
    NotPresent(Before(ctx), After(ctx), k);
    assert Before(ctx) + [] + After(ctx) == Before(ctx) + After(ctx);
  }

  lemma WholeTreeOrEmpty(t: Tree, p: Node?)
    requires Apart(t) && Links(t, p, null)
    ensures p != null ==> At(Top, t, p)
    ensures (p == null <==> t.Leaf?) && Plug(Top, t) == t && Before(Top) == [] && After(Top) == []
  {}

  lemma AfterRight(l: Tree, n: Node, b: int, ctx: Path)
    ensures After(InRight(l, n, b, ctx)) == After(ctx)
  {}

  datatype WalkState = Push | Pop | End

  /** What is still to be visited for the nodes on the stack, topmost first, and their right sides. */
  ghost function Pending(stack: seq<Node>, rights: seq<Tree>): seq<Node>
    requires |stack| == |rights|
  {
    if stack == [] then []
    else
      var k := |stack| - 1;
      ([stack[k]] + InOrder(rights[k])) + Pending(stack[..k], rights[..k])
  }

  lemma NothingPending(s: seq<Node>)
    ensures s + Pending([], []) == s
  {}

  lemma NothingHere(sub: Tree, par: Node?, stack: seq<Node>, rights: seq<Tree>)
    requires |stack| == |rights| && Links(sub, null, par)
    ensures InOrder(sub) + Pending(stack, rights) == Pending(stack, rights)
  {
    hide Pending;
  }

  /** In memory, the right side of every node on the stack. */
  ghost predicate StackLinked(stack: seq<Node>, rights: seq<Tree>)
    reads stack, set i, n | 0 <= i < |rights| && n in Nodes(rights[i]) :: n
  {
    |stack| == |rights| && forall i :: 0 <= i < |stack| ==> Links(rights[i], stack[i].right, stack[i])
  }

  lemma StackPush(stack: seq<Node>, rights: seq<Tree>, c: Node, r: Tree)
    requires StackLinked(stack, rights) && Links(r, c.right, c)
    ensures StackLinked(stack + [c], rights + [r])
  {}

  lemma StackPop(stack: seq<Node>, rights: seq<Tree>)
    requires StackLinked(stack, rights) && stack != []
    ensures var k := |stack| - 1; StackLinked(stack[..k], rights[..k]) && Links(rights[k], stack[k].right, stack[k])
  {}

  lemma PendingPush(l: seq<Node>, stack: seq<Node>, rights: seq<Tree>, n: Node, r: Tree)
    requires |stack| == |rights|
    ensures l + Pending(stack + [n], rights + [r]) == (l + [n] + InOrder(r)) + Pending(stack, rights)
  {
    assert (stack + [n])[..|stack|] == stack && (rights + [r])[..|rights|] == rights;
    ConcatFour(l, [n], InOrder(r), Pending(stack, rights));
  }

  lemma ConcatFour<T>(a: seq<T>, b: seq<T>, c: seq<T>, d: seq<T>)
    ensures a + ((b + c) + d) == (a + b + c) + d
  {}

  lemma PendingPop(stack: seq<Node>, rights: seq<Tree>)
    requires |stack| == |rights| && stack != []
    ensures var k := |stack| - 1;
      Pending(stack, rights) == [stack[k]] + (InOrder(rights[k]) + Pending(stack[..k], rights[..k]))
  {
    var k := |stack| - 1;
    ConcatAssoc([stack[k]], InOrder(rights[k]), Pending(stack[..k], rights[..k]));
  }

  /** Going left from c puts c and its right side on the stack. */
  lemma WalkDown(sub: Tree, c: Node, par: Node?, stack: seq<Node>, rights: seq<Tree>)
    requires StackLinked(stack, rights) && |stack| == |rights| && Links(sub, c, par)
    ensures sub.Fork? && Links(sub.left, c.left, c) && StackLinked(stack + [c], rights + [sub.right])
    ensures InOrder(sub.left) + Pending(stack + [c], rights + [sub.right]) == InOrder(sub) + Pending(stack, rights)
  {
    hide *;
    RootInNodes(sub, c, par);
    var Fork(l, n, b, r) := sub;
    ForkRoot(l, n, b, r, c, par);
    ForkLinks(l, n, b, r, par);
    ForkContent(l, n, b, r);
    PendingPush(InOrder(l), stack, rights, c, r);
    StackPush(stack, rights, c, r);
  }

  /** Popping visits the top of the stack and goes on in its right side. */
  lemma WalkUp(visited: seq<Node>, stack: seq<Node>, rights: seq<Tree>)
    requires StackLinked(stack, rights) && |stack| == |rights| && stack != []
    ensures var k := |stack| - 1;
      && StackLinked(stack[..k], rights[..k]) && Links(rights[k], stack[k].right, stack[k])
      && visited + Pending(stack, rights)
         == visited + [stack[k]] + (InOrder(rights[k]) + Pending(stack[..k], rights[..k]))
  {
    hide *;
    var k := |stack| - 1;
    PendingPop(stack, rights);
    StackPop(stack, rights);
    ConcatAssoc(visited, [stack[k]], InOrder(rights[k]) + Pending(stack[..k], rights[..k]));
  }

  ghost function PostOrder(t: Tree): seq<Node> {
    match t
    case Leaf => []
    case Fork(l, n, _, r) => PostOrder(l) + PostOrder(r) + [n]
  }

  lemma {:induction false} PostOrderNodes(t: Tree)
    ensures (set n | n in PostOrder(t)) == Nodes(t)
  {
    if t.Fork? {
      PostOrderNodes(t.left);
      PostOrderNodes(t.right);
    }
  }

  lemma {:induction false} PostOrderDistinct(t: Tree)
    requires Apart(t)
    ensures Distinct(PostOrder(t))
  {
    if t.Fork? {
      PostOrderDistinct(t.left);
      PostOrderDistinct(t.right);
      ForkContent(t.left, t.node, t.bal, t.right);
      PostOrderNodes(t.left);
      PostOrderNodes(t.right);
      hide PostOrder;
      DistinctConcat(PostOrder(t.left), PostOrder(t.right), t.node);
    }
  }

  lemma DistinctConcat(p: seq<Node>, q: seq<Node>, n: Node)
    requires Distinct(p) && Distinct(q) && (set x | x in p) !! (set x | x in q)
    requires n !in (set x | x in p) && n !in (set x | x in q)
    ensures Distinct(p + q + [n])
  {
    var s, P, Q := p + q + [n], set x | x in p, set x | x in q;
    forall i, j | 0 <= i < j < |s| ensures s[i] != s[j] {
      if j < |p| {
        assert s[i] == p[i] && s[j] == p[j];
      } else if j < |p| + |q| {
        assert s[j] == q[j - |p|] && s[j] in Q;
        if i < |p| { assert s[i] in P; } else { assert s[i] == q[i - |p|]; }
      } else {
        assert s[j] == n;
        if i < |p| { assert s[i] in P; } else { assert s[i] == q[i - |p|] && s[i] in Q; }
      }
    }
  }

  /** Nothing is left on the left of the way. */
  ghost predicate LeftsGone(c: Path) {
    match c
    case Top => true
    case InLeft(up, _, _, _) => LeftsGone(up)
    case InRight(l, _, _, up) => l.Leaf? && LeftsGone(up)
  }

  /** What is freed after the subtree in the hole. */
  ghost function Later(c: Path): seq<Node> {
    match c
    case Top => []
    case InLeft(up, n, _, r) => (PostOrder(r) + [n]) + Later(up)
    case InRight(_, n, _, up) => [n] + Later(up)
  }

  predicate Unlinked(n: Node)
    reads n
  {
    n.parent == null && n.left == null && n.right == null
  }

  lemma NothingLater()
    ensures Later(Top) == [] && PostOrder(Leaf) == [] && LeftsGone(Top)
  {}

  lemma LaterStep(ctx: Path, sub: Tree)
    requires sub.Fork? && LeftsGone(ctx)
    ensures var Fork(l, n, b, r) := sub;
      && PostOrder(l) + Later(InLeft(ctx, n, b, r)) == PostOrder(sub) + Later(ctx)
      && LeftsGone(InLeft(ctx, n, b, r))
      && (l.Leaf? ==>
            && PostOrder(r) + Later(InRight(l, n, b, ctx)) == PostOrder(sub) + Later(ctx)
            && LeftsGone(InRight(l, n, b, ctx)))
      && (l.Leaf? && r.Leaf? ==> PostOrder(sub) == [n])
  {
    hide *;
    var Fork(l, n, b, r) := sub;
    PostOrderFork(l, n, b, r);
    LaterBelow(ctx, l, n, b, r);
    NothingLater();
    ConcatThree(PostOrder(l), PostOrder(r), [n], Later(ctx));
    if l.Leaf? { assert [] + PostOrder(r) + [n] == PostOrder(r) + [n]; }
  }

  lemma PostOrderFork(l: Tree, n: Node, b: int, r: Tree)
    ensures PostOrder(Fork(l, n, b, r)) == PostOrder(l) + PostOrder(r) + [n]
  {}

  lemma LaterBelow(ctx: Path, l: Tree, n: Node, b: int, r: Tree)
    ensures Later(InLeft(ctx, n, b, r)) == (PostOrder(r) + [n]) + Later(ctx)
    ensures Later(InRight(l, n, b, ctx)) == [n] + Later(ctx)
    ensures LeftsGone(ctx) ==> LeftsGone(InLeft(ctx, n, b, r)) && (l.Leaf? ==> LeftsGone(InRight(l, n, b, ctx)))
  {}

  lemma ConcatThree<T>(a: seq<T>, b: seq<T>, c: seq<T>, d: seq<T>)
    ensures a + ((b + c) + d) == (a + b + c) + d
    ensures b + (c + d) == (b + c) + d
  {}

  lemma SplitNodes(ctx: Path, sub: Tree)
    requires sub.Fork?
    ensures var Fork(l, n, b, r) := sub;
      && Nodes(l) + PathNodes(InLeft(ctx, n, b, r)) == Nodes(sub) + PathNodes(ctx)
      && Nodes(r) + PathNodes(InRight(l, n, b, ctx)) == Nodes(sub) + PathNodes(ctx)
  {}

  lemma RaisedNodes(ctx: Path, t: Tree)
    requires !ctx.Top?
    ensures Nodes(Raised(ctx, t, 0)) + PathNodes(Outer(ctx)) == Nodes(t) + PathNodes(ctx)
    ensures Nodes(Leaf) == {}
  {}

  lemma LaterRaised(ctx: Path)
    requires !ctx.Top? && LeftsGone(ctx)
    ensures Later(ctx) == PostOrder(Raised(ctx, Leaf, 0)) + Later(Outer(ctx)) && LeftsGone(Outer(ctx))
  {
    hide PostOrder, Later;
    var t := Raised(ctx, Leaf, 0);
    PostOrderFork(t.left, t.node, t.bal, t.right);
    LaterBelow(Outer(ctx), t.left, t.node, ctx.bal, t.right);
    NothingLater();
    assert [] + PostOrder(t.right) + [t.node] == PostOrder(t.right) + [t.node] && [] + [] + [t.node] == [t.node];
  }

  /** The nodes freed so far, and those still linked, are the post-order of the whole tree. */
  ghost predicate Destroying(freed: seq<Node>, ctx: Path, sub: Tree, t: Tree) {
    && LeftsGone(ctx) && freed + (PostOrder(sub) + Later(ctx)) == PostOrder(t)
    && Nodes(sub) + PathNodes(ctx) <= Nodes(t)
    && forall n :: n in freed ==> n !in Nodes(sub) + PathNodes(ctx)
  }

  lemma DestroyDown(freed: seq<Node>, ctx: Path, sub: Tree, t: Tree)
    requires Destroying(freed, ctx, sub, t) && sub.Fork?
    ensures var Fork(l, n, b, r) := sub;
      && Destroying(freed, InLeft(ctx, n, b, r), l, t)
      && (l.Leaf? ==> Destroying(freed, InRight(l, n, b, ctx), r, t))
    ensures |freed| < |PostOrder(t)| && sub.node in Nodes(t) && PathNodes(ctx) <= Nodes(t)
    ensures sub.node !in freed && forall n :: n in freed ==> n !in PathNodes(ctx)
  {
    LaterStep(ctx, sub);
    SplitNodes(ctx, sub);
    hide Nodes, PathNodes, LeftsGone, Later;
    ForkContent(sub.left, sub.node, sub.bal, sub.right);
  }

  lemma DestroyUp(freed: seq<Node>, ctx: Path, sub: Tree, t: Tree)
    requires Destroying(freed, ctx, sub, t) && sub.Fork? && sub.left.Leaf? && sub.right.Leaf?
    requires sub.node !in PathNodes(ctx)
    ensures ctx.Top? ==> freed + [sub.node] == PostOrder(t)
    ensures !ctx.Top? ==> Destroying(freed + [sub.node], Outer(ctx), Raised(ctx, Leaf, 0), t)
  {
    assert PostOrder(sub) == [sub.node];
    if ctx.Top? {
      NothingLater();
    } else {
      LaterRaised(ctx);
      RaisedNodes(ctx, Leaf);
      ConcatAssoc(freed, [sub.node], Later(ctx));
    }
    hide Nodes, PathNodes, LeftsGone, Later, PostOrder, Raised, Outer;
  }

  /** Cuts the childless node c off its parent. */
  method FreeLeaf(c: Node, ghost ctx: Path, ghost sub: Tree) returns (p: Node?)
    requires At(ctx, sub, c) && sub.Fork? && sub.left.Leaf? && sub.right.Leaf?
    modifies {c} + PathNodes(ctx)
    ensures p == null <==> ctx.Top?
    ensures p != null ==> At(Outer(ctx), Raised(ctx, Leaf, 0), p)
    ensures Unlinked(c) && c !in PathNodes(ctx)
  {
    AtRoot(ctx, sub, c);
    AtChildren(ctx, sub, c);
    EmptyTree();
    p := c.parent;
    if p != null {
      ghost var view := ParentView(ctx, sub, c);
      hide *;
      if p.left == c {
        p.left := null;
      } else if p.right == c {
        p.right := null;
      }
      ParentAgain(ctx, Leaf, 0, p);
    }
    c.parent := null;
  }

  lemma EmptyTree()
    ensures Apart(Leaf) && Nodes(Leaf) == {} && forall par :: Links(Leaf, null, par)
  {}

  class AvlTree {
    var root: Node?
    var ncount: nat
    ghost var tree: Tree

    /** Exact balanced shape, search order, root pointer and node count. */
    ghost predicate Valid()
      reads this, Nodes(tree)
    {
      && Apart(tree) && Links(tree, root, null) && Avl(tree)
      && Ordered(InOrder(tree)) && ncount == |InOrder(tree)|
    }

    /** The nodes in key order. */
    ghost function Contents(): seq<Node>
      reads this
    {
      InOrder(tree)
    }

    constructor ()
      ensures Valid() && Contents() == []
    {
      root, ncount, tree := null, 0, Leaf;
    }

    /** The first loop of insertion: the node below which key belongs, and on which side, unless the key is present. */
    method FindPlace(key: int) returns (found: bool, c: Node, ghost ctx: Path, ghost sub: Tree)
      requires Valid() && root != null
      ensures At(ctx, sub, c) && sub.Fork? && Plug(ctx, sub) == tree
      ensures AllBelow(Before(ctx), key) && AllAbove(After(ctx), key)
      ensures if found then c in Contents() && c.key == key
              else c.key != key && (if c.key < key then c.right == null else c.left == null)
    {
      hide At, Nodes, PathNodes, InOrder, Before, After;
      WholeTree(tree, root);
      c, ctx, sub := root, Top, tree;
      while true
        invariant At(ctx, sub, c) && sub.Fork? && Plug(ctx, sub) == tree
        invariant AllBelow(Before(ctx), key) && AllAbove(After(ctx), key)
        decreases sub
      {
        OpenFork(ctx, sub, c, key);
        if c.key < key {
          if c.right == null { return false, c, ctx, sub; }
          c, ctx, sub := c.right, InRight(sub.left, c, sub.bal, ctx), sub.right;
        } else if c.key > key {
          if c.left == null { return false, c, ctx, sub; }
          c, ctx, sub := c.left, InLeft(ctx, c, sub.bal, sub.right), sub.left;
        } else {
          return true, c, ctx, sub;
        }
      }
    }

    /** Links n below c, on the side its key belongs. */
    method LinkLeaf(c: Node, n: Node, ghost ctx: Path, ghost sub: Tree) returns (absorbed: bool, ghost ctx': Path)
      requires At(ctx, sub, c) && sub.Fork? && Plug(ctx, sub) == tree && Avl(tree) && Ordered(InOrder(tree))
      requires AllBelow(Before(ctx), n.key) && AllAbove(After(ctx), n.key)
      requires c.key != n.key && (if c.key < n.key then c.right == null else c.left == null)
      requires n !in Nodes(tree) && n.parent == null && n.left == null && n.right == null && n.balance == 0
      modifies Nodes(tree), n
      ensures At(ctx', Fork(Leaf, n, 0, Leaf), n) && PathAvl(ctx', if absorbed then 1 else 0)
      ensures PathNodes(ctx') == Nodes(tree) && Before(ctx') + After(ctx') == Contents()
      ensures AllBelow(Before(ctx'), n.key) && AllAbove(After(ctx'), n.key)
    {
      hide At, Nodes, PathNodes, InOrder, Before, After, Avl, PathAvl, Height;
      OpenFork(ctx, sub, c, n.key);
      ContentsAtPlace(ctx, sub);
      NewLeafFits(ctx, sub);
      NodeInTree(ctx, sub);
      if c.key < n.key {
        absorbed, ctx' := AttachRight(c, n, ctx, sub);
        SamePlace(InRight(sub.left, c, sub.bal, ctx), ctx'.bal);
      } else {
        absorbed, ctx' := AttachLeft(c, n, ctx, sub);
        SamePlace(InLeft(ctx, c, sub.bal, sub.right), ctx'.bal);
      }
    }

    /** Links n below c, restores the balance, and updates root and count. */
    method AddBelow(c: Node, n: Node, ghost ctx0: Path, ghost sub0: Tree)
      requires Valid() && At(ctx0, sub0, c) && sub0.Fork? && Plug(ctx0, sub0) == tree
      requires AllBelow(Before(ctx0), n.key) && AllAbove(After(ctx0), n.key)
      requires c.key != n.key && (if c.key < n.key then c.right == null else c.left == null)
      requires n !in Nodes(tree) && n.parent == null && n.left == null && n.right == null && n.balance == 0
      modifies this, Nodes(tree), n
      ensures Valid() && Contents() == Inserted(old(Contents()), n)
      ensures ncount == old(ncount) + 1 && Nodes(tree) == old(Nodes(tree)) + {n}
      ensures forall m :: m in old(Contents()) ==> m.key != n.key
    {
      hide At, Nodes, PathNodes, InOrder, Before, After, Avl, PathAvl, Height, Inserted, Plug, Links, Apart, Ordered,
        AllBelow, AllAbove;
      TreeAllocated(tree);
      SingleLeaf(n);
      ghost var ctx, sub := ctx0, Fork(Leaf, n, 0, Leaf);
      var absorbed, top := false, n;
      absorbed, ctx := LinkLeaf(c, n, ctx0, sub0);
      InsertedBetween(Before(ctx), n, After(ctx));
      OrderedWithInserted(Before(ctx), n, After(ctx));
      NotPresent(Before(ctx), After(ctx), n.key);
      if !absorbed {
        top, ctx, sub := AbsorbGrowth(n, ctx, sub);
      }
      WholeContent(ctx, sub);
      top, sub := ClimbToRoot(top, ctx, sub);
      WholeAt(sub, top);
      root, tree, ncount := top, sub, ncount + 1;
    }

    /** Adds n in its place in key order, unless its key is present already. */
    method Add(n: Node) returns (ok: bool)
      requires Valid() && n !in Nodes(tree)
      requires n.parent == null && n.left == null && n.right == null && n.balance == 0
      modifies this, Nodes(tree), n
      ensures Valid()
      ensures ok <==> forall m :: m in old(Contents()) ==> m.key != n.key
      ensures ok ==> Contents() == Inserted(old(Contents()), n)
      ensures ok ==> ncount == old(ncount) + 1 && Nodes(tree) == old(Nodes(tree)) + {n}
      ensures !ok ==> tree == old(tree) && root == old(root)
      ensures !ok ==> n.parent == null && n.left == null && n.right == null && n.balance == 0
    {
      if root == null {
        RootInNodes(tree, root, null);
        SingleLeaf(n);
        assert InOrder(tree) == [] && Inserted([], n) == [n];
        root, tree, ncount := n, Fork(Leaf, n, 0, Leaf), ncount + 1;
        assert Links(tree, root, null);
        return true;
      }
      TreeAllocated(tree);
      var found, c;
      ghost var ctx, sub;
      found, c, ctx, sub := FindPlace(n.key);
      if found {
        return false;
      }
      hide At, Nodes, InOrder, Inserted;
      AddBelow(c, n, ctx, sub);
      ok := true;
    }

    /** The upward loop of deletion, and the new root and count. */
    method FinishRemoval(c: Node, absorbed: bool, ghost ctx: Path, ghost sub: Tree, ghost ctx': Path, ghost sub': Tree)
      requires At(ctx', sub', c) && sub.Fork? && Removal(ctx, sub, absorbed, ctx', sub') && ncount > 0
      requires var s := (Before(ctx) + InOrder(sub.left)) + (InOrder(sub.right) + After(ctx));
        Ordered(s) && ncount == |s| + 1
      modifies this, Nodes(sub') + PathNodes(ctx')
      ensures Valid() && ncount == old(ncount) - 1
      ensures Contents() == (Before(ctx) + InOrder(sub.left)) + (InOrder(sub.right) + After(ctx))
      ensures Nodes(tree) == Nodes(sub.left) + Nodes(sub.right) + PathNodes(ctx)
    {
      hide At, Nodes, PathNodes, InOrder, Before, After, Avl, Links, Apart, Ordered, Shrunk;
      var r;
      ghost var t;
      r, t := AbsorbLoss(c, absorbed, ctx', sub');
      WholeAt(t, r);
      root, tree, ncount := r, t, ncount - 1;
    }

    /** The root without right child: its left child becomes the root. */
    method DeleteRoot(n: Node)
      requires Valid() && tree.Fork? && tree.node == n && tree.right.Leaf?
      modifies this, Nodes(tree)
      ensures Valid() && Contents() == Removed(old(Contents()), n) && Cleared(n)
      ensures ncount == old(ncount) - 1 && Nodes(tree) == old(Nodes(tree)) - {n}
    {
      hide Links, Apart, Nodes, InOrder, Avl, Ordered, Removed;
      ghost var l := tree.left;
      OnlyLeftSide(n);
      RootInNodes(l, n.left, n);
      var c := n.left;
      Adopt(c, null, l, n);
      FreeNode(n);
      root, tree, ncount := c, l, ncount - 1;
    }

    lemma OnlyLeftSide(n: Node)
      requires Valid() && tree.Fork? && tree.node == n && tree.right.Leaf?
      ensures var l := tree.left;
        && Links(l, n.left, n) && Apart(l) && Avl(l) && Ordered(InOrder(l)) && ncount == |InOrder(l)| + 1
        && InOrder(l) == Removed(Contents(), n) && n !in Nodes(l) && Nodes(tree) == Nodes(l) + {n}
      ensures forall x :: x in Nodes(tree) ==> allocated(x)
    {
      TreeAllocated(tree);
      RemovedFrom(Top, tree);
      var Fork(l, _, b, r) := tree;
      assert InOrder(l) == InOrder(l) + InOrder(Leaf);
      hide Nodes, InOrder, Removed, Ordered;
      ForkLinks(l, n, b, r, null);
      ForkContent(l, n, b, r);
      EmptyContent();
    }

    lemma StartDeleting(n: Node) returns (ctx: Path, sub: Tree)
      requires Valid() && n in Nodes(tree)
      ensures Plug(ctx, sub) == tree && At(ctx, sub, n) && sub.Fork? && sub.node == n
      ensures Avl(tree) && Avl(sub) && PathAvl(ctx, Height(sub))
      ensures var s := (Before(ctx) + InOrder(sub.left)) + (InOrder(sub.right) + After(ctx));
        Removed(Contents(), n) == s && Ordered(s) && ncount == |s| + 1
      ensures var rest := Nodes(sub.left) + Nodes(sub.right) + PathNodes(ctx);
        Nodes(tree) == rest + {n} && n !in rest && Nodes(sub) + PathNodes(ctx) == Nodes(tree)
      ensures forall x :: x in Nodes(tree) ==> allocated(x)
    {
      hide At, Nodes, PathNodes, InOrder, Before, After, Avl, PathAvl, Height, Removed, Plug, Links, Apart, Ordered;
      ctx, sub := Locate(Top, tree, n);
      PlugTop(tree);
      LocatedAt(ctx, sub, tree, root, n);
      PathAvlPlug(ctx, sub);
      PlugNodes(ctx, sub);
      RemovedFrom(ctx, sub);
      TreeAllocated(tree);
    }

    /** Takes n out of the tree. */
    method Delete(n: Node)
      requires Valid() && n in Nodes(tree)
      modifies this, Nodes(tree)
      ensures Valid() && Contents() == Removed(old(Contents()), n) && Cleared(n)
      ensures ncount == old(ncount) - 1 && Nodes(tree) == old(Nodes(tree)) - {n}
    {
      hide *;
      ghost var ctx, sub := StartDeleting(n);
      AtChildren(ctx, sub, n);
      AtRoot(ctx, sub, n);
      if n.right == null {
        if n.parent != null {
          RemovedWithoutRight(ctx, sub);
          var c, absorbed;
          ghost var ctx', sub';
          c, absorbed, ctx', sub' := RemoveWithoutRight(n, ctx, sub);
          RemovalNodes(ctx, sub, absorbed, ctx', sub');
          FinishRemoval(c, absorbed, ctx, sub, ctx', sub');
        } else {
          PlugTop(sub);
          DeleteRoot(n);
        }
      } else {
        AtRightChild(ctx, sub, n);
        AtChildren(InRight(sub.left, n, sub.bal, ctx), sub.right, n.right);
        if n.right.left == null {
          ReplacedByRight(ctx, sub);
          var c, absorbed;
          ghost var sub';
          c, absorbed, sub' := ReplaceByRight(n, ctx, sub);
          RemovalNodes(ctx, sub, absorbed, ctx, sub');
          FinishRemoval(c, absorbed, ctx, sub, ctx, sub');
        } else {
          LeftExists(sub);
          var c, absorbed;
          ghost var s, sb, way, r;
          c, absorbed, s, sb, way, r := ReplaceBySuccessor(n, ctx, sub);
          ReplacedBySuccessor(ctx, sub, way, s, sb, r);
          ghost var ctx' := Append(way, InRight(sub.left, s, sub.bal, ctx));
          RemovalNodes(ctx, sub, absorbed, Outer(ctx'), Raised(ctx', r, 1));
          FinishRemoval(c, absorbed, ctx, sub, Outer(ctx'), Raised(ctx', r, 1));
        }
      }
    }

    lemma DepthFork(ctx: Path, sub: Tree, c: Node)
      requires At(ctx, sub, c) && sub.Fork?
      ensures Depth(InLeft(ctx, c, sub.bal, sub.right)) == Depth(InRight(sub.left, c, sub.bal, ctx)) == Depth(ctx) + 1
      ensures c.left == TreeRoot(sub.left) && c.right == TreeRoot(sub.right)
    {
      AtSides(ctx, sub, c);
      RootInNodes(sub.left, c.left, c);
      RootInNodes(sub.right, c.right, c);
      hide At;
    }

    lemma StartFinding(key: int)
      requires Valid()
      ensures (root != null ==> At(Top, tree, root)) && (root == null <==> tree.Leaf?) && Plug(Top, tree) == tree
      ensures root == TreeRoot(tree) && Depth(Top) == 0
      ensures AllBelow(Before(Top), key) && AllAbove(After(Top), key)
      ensures Contents() == InOrder(tree) && Ordered(InOrder(tree)) && Fib(Height(tree) + 2) <= ncount + 1
    {
      hide Fib, Height, InOrder, Nodes, Avl;
      HeightBound(tree);
      WholeTreeOrEmpty(tree, root);
    }

    /** The node with the key, or null. The number of steps is within the Fibonacci bound for the number of nodes. */
    method Find(key: int) returns (r: Node?, ghost steps: nat)
      requires Valid()
      ensures r == null ==> forall m :: m in Contents() ==> m.key != key
      ensures r != null ==> r in Contents() && r in Nodes(tree) && r.key == key
      ensures AtDepth(tree, r, steps) && Fib(steps + 2) <= ncount + 1
    {
      hide *;
      r, steps := root, 0;
      ghost var ctx, sub := Top, tree;
      StartFinding(key);
      while r != null
        invariant r != null ==> At(ctx, sub, r)
        invariant r == null <==> sub.Leaf?
        invariant Plug(ctx, sub) == tree && steps + Height(sub) <= Height(tree)
        invariant r == TreeRoot(sub) && steps == Depth(ctx)
        invariant AllBelow(Before(ctx), key) && AllAbove(After(ctx), key)
        decreases sub
      {
        OpenFork(ctx, sub, r, key);
        PlugFork(ctx, sub);
        DepthFork(ctx, sub, r);
        if key == r.key {
          NodeInTree(ctx, sub);
          PlugDepth(ctx, sub);
          FibMonotone(steps + 2, Height(tree) + 2);
          return;
        } else if key < r.key {
          r, ctx, sub := r.left, InLeft(ctx, r, sub.bal, sub.right), sub.left;
        } else {
          r, ctx, sub := r.right, InRight(sub.left, r, sub.bal, ctx), sub.right;
        }
        steps := steps + 1;
      }
      NotInTree(ctx, key);
      PlugDepth(ctx, sub);
      FibMonotone(steps + 2, Height(tree) + 2);
    }

    /** The node with the largest key. */
    method GetMax() returns (r: Node?)
      requires Valid()
      ensures r == null <==> Contents() == []
      ensures r != null ==> r == Contents()[|Contents()| - 1] && r in Nodes(tree)
      ensures r != null ==> forall m :: m in Contents() ==> m.key <= r.key
    {
      hide At, Nodes, PathNodes, InOrder, Before, After;
      r := root;
      ghost var ctx, sub := Top, tree;
      WholeTreeOrEmpty(tree, root);
      while r != null
        invariant r != null ==> At(ctx, sub, r)
        invariant (r == null <==> sub.Leaf?) && (r == null <==> tree.Leaf?)
        invariant Plug(ctx, sub) == tree && After(ctx) == []
        decreases sub
      {
        AtChildren(ctx, sub, r);
        NodeInTree(ctx, sub);
        PlugInOrder(ctx, sub);
        ForkContent(sub.left, sub.node, sub.bal, sub.right);
        EmptyContent();
        if r.right != null {
          AtRightChild(ctx, sub, r);
          AfterRight(sub.left, r, sub.bal, ctx);
          r, ctx, sub := r.right, InRight(sub.left, r, sub.bal, ctx), sub.right;
        } else {
          AtRoot(ctx, sub, r);
          assert Contents() == Before(ctx) + (InOrder(sub.left) + [r] + []) + [];
          return;
        }
      }
      EmptyContent();
    }

    /** Takes out the node with the key, if there is one. */
    method DeleteKey(key: int) returns (ok: bool)
      requires Valid()
      modifies this, Nodes(tree)
      ensures Valid()
      ensures ok <==> exists m :: m in old(Contents()) && m.key == key
      ensures ok ==> ncount == old(ncount) - 1 && Nodes(tree) <= old(Nodes(tree))
      ensures ok ==> exists n :: n in old(Contents()) && n.key == key && Contents() == Removed(old(Contents()), n)
      ensures !ok ==> tree == old(tree) && root == old(root) && ncount == old(ncount)
    {
      TreeAllocated(tree);
      var n;
      ghost var steps;
      n, steps := Find(key);
      hide Nodes, InOrder, Removed;
      if n == null {
        return false;
      }
      Delete(n);
      ok := true;
    }

    lemma StartWalking()
      requires Valid()
      ensures Links(tree, root, null) && StackLinked([], [])
      ensures [] + (InOrder(tree) + Pending([], [])) == Contents()
    {
      NothingPending(InOrder(tree));
    }

    /** The in-order walk with an explicit stack: the callback sees every node once, in key order. */
    method Walk() returns (visited: seq<Node>)
      requires Valid()
      ensures visited == Contents()
    {
      hide *;
      StartWalking();
      var state, c: Node?, stack: seq<Node> := Push, root, [];
      visited := [];
      ghost var sub, rights: seq<Tree>, par: Node? := tree, [], null;
      while state != End
        invariant |stack| == |rights|
        invariant StackLinked(stack, rights)
        invariant state == Push ==> Links(sub, c, par)
        invariant state == Push ==> visited + (InOrder(sub) + Pending(stack, rights)) == Contents()
        invariant state == Pop ==> visited + Pending(stack, rights) == Contents()
        invariant state == End ==> visited == Contents()
        decreases |Contents()| - |visited|, match state case Push => 2 case Pop => 1 case End => 0, sub
      {
        match state
        case Push =>
          RootInNodes(sub, c, par);
          if c != null {
            WalkDown(sub, c, par, stack, rights);
            stack := stack + [c];
            rights := rights + [sub.right];
            par := c;
            sub := sub.left;
            c := c.left;
          }
          if c == null { NothingHere(sub, par, stack, rights); }
          state := if c == null then Pop else Push;
        case Pop =>
          if stack == [] {
            NothingPending(visited);
            state := End;
          } else {
            WalkUp(visited, stack, rights);
            ghost var k := |stack| - 1;
            c := stack[|stack| - 1];
            stack := stack[..|stack| - 1];
            visited := visited + [c];
            sub, rights, par := rights[k], rights[..k], c;
            c := c.right;
            state := Push;
          }
      }
    }

    lemma StartDestroying()
      requires Valid()
      ensures root != null ==> At(Top, tree, root) && tree.Fork?
      ensures Destroying([], Top, tree, tree) && (root == null ==> PostOrder(tree) == [])
      ensures Distinct(PostOrder(tree)) && (set n | n in PostOrder(tree)) == Nodes(tree)
      ensures forall n :: n in Nodes(tree) ==> allocated(n)
    {
      PostOrderDistinct(tree);
      PostOrderNodes(tree);
      WholeTreeOrEmpty(tree, root);
      TreeAllocated(tree);
      PlugNodes(Top, tree);
      NothingLater();
    }

    /** Frees every node: children before their parent, left side before right side, following parent links only. */
    method Destroy() returns (freed: seq<Node>)
      requires Valid()
      modifies Nodes(tree)
      ensures freed == PostOrder(tree)
      ensures Distinct(freed) && (set n | n in freed) == Nodes(tree)
      ensures forall n :: n in freed ==> Unlinked(n)
    {
      hide *;
      StartDestroying();
      freed := [];
      var c := root;
      ghost var ctx, sub := Top, tree;
      while c != null
        invariant c != null ==> At(ctx, sub, c) && sub.Fork? && Destroying(freed, ctx, sub, tree)
        invariant c == null ==> freed == PostOrder(tree)
        invariant forall n :: n in freed ==> Unlinked(n)
        decreases c != null, |PostOrder(tree)| - |freed|, sub
      {
        AtChildren(ctx, sub, c);
        AtRoot(ctx, sub, c);
        DestroyDown(freed, ctx, sub, tree);
        if c.left != null {
          AtLeftChild(ctx, sub, c);
          c, ctx, sub := c.left, InLeft(ctx, c, sub.bal, sub.right), sub.left;
        } else if c.right != null {
          AtRightChild(ctx, sub, c);
          c, ctx, sub := c.right, InRight(sub.left, c, sub.bal, ctx), sub.right;
        } else {
          var dn := c;
          c := FreeLeaf(dn, ctx, sub);
          DestroyUp(freed, ctx, sub, tree);
          freed := freed + [dn];
          if c != null {
            ctx, sub := Outer(ctx), Raised(ctx, Leaf, 0);
          }
        }
      }
    }
  }
}
