/**
The four rotations and the choice between them: what they do to the links in memory, and that the result is balanced
with exact stored balances, holds the same nodes in the same order, and has the expected height.

In contracts `P(..) == true` means P(..): compared with `true`, a predicate is passed on as a whole instead of being
taken apart at every call.
 */
module AvlRotations {
  import opened AvlShape

  const AVL_LEFT: bv4 := 0x2
  const AVL_RIGHT: bv4 := 0x1
  const AVL_LEFTRIGHT: bv4 := 0x6
  const AVL_RIGHTLEFT: bv4 := 0x9
  const AVL_LEFTLEFT: bv4 := 0xA
  const AVL_RIGHTRIGHT: bv4 := 0x5

  // ---- shapes after rotation

  ghost function RightRight(t: Tree): Tree
    requires t.Fork? && t.right.Fork?
  {
    var Fork(l, a, _, Fork(m, b, bb, r)) := t;
    Fork(Fork(l, a, if bb == 0 then 1 else 0, m), b, if bb == 0 then -1 else 0, r)
  }

  ghost function LeftLeft(t: Tree): Tree
    requires t.Fork? && t.left.Fork?
  {
    var Fork(Fork(l, b, bb, m), a, _, r) := t;
    Fork(l, b, if bb == 0 then 1 else 0, Fork(m, a, if bb == 0 then -1 else 0, r))
  }

  /** A double rotation before the balances are set. */
  ghost function LeftRightLinks(t: Tree): Tree
    requires t.Fork? && t.left.Fork? && t.left.right.Fork?
  {
    var Fork(Fork(l, b, bb, Fork(m, c, cb, n)), a, ab, r) := t;
    Fork(Fork(l, b, bb, m), c, cb, Fork(n, a, ab, r))
  }

  ghost function RightLeftLinks(t: Tree): Tree
    requires t.Fork? && t.right.Fork? && t.right.left.Fork?
  {
    var Fork(l, a, ab, Fork(Fork(m, c, cb, n), b, bb, r)) := t;
    Fork(Fork(l, a, ab, m), c, cb, Fork(n, b, bb, r))
  }

  /** The balances after a double rotation, from the old balance of the node that is now on top. */
  ghost function WithBalances(t: Tree): Tree
    requires t.Fork? && t.left.Fork? && t.right.Fork?
  {
    var Fork(Fork(l, x, xb, m), c, cb, Fork(n, y, yb, r)) := t;
    Fork(Fork(l, x, if cb == 1 then -1 else if cb == 0 || cb == -1 then 0 else xb, m), c, 0,
         Fork(n, y, if cb == -1 then 1 else if cb == 0 || cb == 1 then 0 else yb, r))
  }

  ghost function LeftRight(t: Tree): Tree
    requires t.Fork? && t.left.Fork? && t.left.right.Fork?
  {
    WithBalances(LeftRightLinks(t))
  }

  ghost function RightLeft(t: Tree): Tree
    requires t.Fork? && t.right.Fork? && t.right.left.Fork?
  {
    WithBalances(RightLeftLinks(t))
  }

  /** The heavier side of an unbalanced tree has what the chosen rotation dereferences. */
  ghost predicate CanRebalance(t: Tree) {
    t.Fork? && (if t.bal == -2
                then t.left.Fork? && (t.left.bal == 0 || t.left.bal == -1 || t.left.right.Fork?)
                else t.right.Fork? && (t.right.bal == 0 || t.right.bal != -1 || t.right.left.Fork?))
  }

  ghost function Rebalanced(t: Tree): Tree
    requires CanRebalance(t)
  {
    if t.bal == -2 then
      if t.left.bal == 0 || t.left.bal == -1 then LeftLeft(t) else LeftRight(t)
    else
      if t.right.bal == -1 then RightLeft(t) else RightRight(t)
  }

  // ---- what rebalancing achieves

  ghost predicate SameContent(t: Tree, t': Tree) {
    Nodes(t) == Nodes(t') && InOrder(t) == InOrder(t') && (Apart(t) ==> Apart(t'))
  }

  lemma {:induction false} RotationsKeepContent(t: Tree)
    requires CanRebalance(t)
    ensures SameContent(t, Rebalanced(t))
  {
    if t.bal == -2 {
      if t.left.bal == 0 || t.left.bal == -1 { LeftLeftContent(t); } else { LeftRightContent(t); }
    } else {
      if t.right.bal == -1 { RightLeftContent(t); } else { RightRightContent(t); }
    }
  }

  lemma RightRightContent(t: Tree)
    requires t.Fork? && t.right.Fork?
    ensures SameContent(t, RightRight(t))
  {
    hide Nodes, InOrder, Apart;
    var Fork(l, a, ab, Fork(m, b, bb, r)) := t;
    var t' := RightRight(t);
    ForkContent(m, b, bb, r);
    ForkContent(l, a, ab, t.right);
    ForkContent(l, a, t'.left.bal, m);
    ForkContent(t'.left, b, t'.bal, r);
    ThreeInOrder(InOrder(l), a, InOrder(m), b, InOrder(r));
  }

  lemma LeftLeftContent(t: Tree)
    requires t.Fork? && t.left.Fork?
    ensures SameContent(t, LeftLeft(t))
  {
    hide Nodes, InOrder, Apart;
    var Fork(Fork(l, b, bb, m), a, ab, r) := t;
    var t' := LeftLeft(t);
    ForkContent(l, b, bb, m);
    ForkContent(t.left, a, ab, r);
    ForkContent(m, a, t'.right.bal, r);
    ForkContent(l, b, t'.bal, t'.right);
    ThreeInOrder(InOrder(l), b, InOrder(m), a, InOrder(r));
  }

  lemma LeftRightContent(t: Tree)
    requires t.Fork? && t.left.Fork? && t.left.right.Fork?
    ensures SameContent(t, LeftRightLinks(t)) && SameContent(t, LeftRight(t))
  {
    var Fork(Fork(l, b, bb, Fork(m, c, cb, n)), a, ab, r) := t;
    var t' := LeftRightLinks(t);
    WithBalancesContent(t');
    hide Nodes, InOrder, Apart, WithBalances;
    ForkContent(m, c, cb, n);
    ForkContent(l, b, bb, t.left.right);
    ForkContent(t.left, a, ab, r);
    ForkContent(l, b, bb, m);
    ForkContent(n, a, ab, r);
    ForkContent(t'.left, c, cb, t'.right);
    FourInOrder(InOrder(l), b, InOrder(m), c, InOrder(n), a, InOrder(r));
  }

  lemma RightLeftContent(t: Tree)
    requires t.Fork? && t.right.Fork? && t.right.left.Fork?
    ensures SameContent(t, RightLeftLinks(t)) && SameContent(t, RightLeft(t))
  {
    hide Nodes, InOrder, Apart, WithBalances;
    var Fork(l, a, ab, Fork(Fork(m, c, cb, n), b, bb, r)) := t;
    var t' := RightLeftLinks(t);
    WithBalancesContent(t');
    ForkContent(m, c, cb, n);
    ForkContent(t.right.left, b, bb, r);
    ForkContent(l, a, ab, t.right);
    ForkContent(l, a, ab, m);
    ForkContent(n, b, bb, r);
    ForkContent(t'.left, c, cb, t'.right);
    FourInOrder(InOrder(l), a, InOrder(m), c, InOrder(n), b, InOrder(r));
  }

  lemma WithBalancesContent(t: Tree)
    requires t.Fork? && t.left.Fork? && t.right.Fork?
    ensures SameContent(t, WithBalances(t))
  {
    var Fork(Fork(l, x, xb, m), c, cb, Fork(n, y, yb, r)) := t;
    var t' := WithBalances(t);
    hide Nodes, InOrder, Apart;
    ForkContent(l, x, xb, m);
    ForkContent(n, y, yb, r);
    ForkContent(t.left, c, cb, t.right);
    ForkContent(l, x, t'.left.bal, m);
    ForkContent(n, y, t'.right.bal, r);
    ForkContent(t'.left, c, 0, t'.right);
  }

  lemma ThreeInOrder(l: seq<Node>, x: Node, m: seq<Node>, y: Node, r: seq<Node>)
    ensures l + [x] + (m + [y] + r) == (l + [x] + m) + [y] + r
  {}

  lemma FourInOrder(l: seq<Node>, x: Node, m: seq<Node>, y: Node, n: seq<Node>, z: Node, r: seq<Node>)
    ensures (l + [x] + (m + [y] + n)) + [z] + r == (l + [x] + m) + [y] + (n + [z] + r)
    ensures l + [x] + ((m + [y] + n) + [z] + r) == (l + [x] + m) + [y] + (n + [z] + r)
  {}

  /** An unbalanced tree can be rebalanced; it gets lower by one unless its heavier child was even. */
  lemma RebalancedIsAvl(t: Tree)
    requires NearlyAvl(t) && (t.bal == 2 || t.bal == -2)
    ensures CanRebalance(t)
    ensures Avl(Rebalanced(t))
    ensures var heavy := if t.bal == -2 then t.left else t.right;
      && heavy.Fork?
      && Height(Rebalanced(t)) == (if heavy.bal == 0 then Height(t) else Height(t) - 1)
      && (heavy.bal != 0 ==> Rebalanced(t).bal == 0)
  {
    EmptyHeight(t.left);
    EmptyHeight(t.right);
    if t.bal == -2 { LeftHeavyIsAvl(t); } else { RightHeavyIsAvl(t); }
  }

  lemma LeftHeavyIsAvl(t: Tree)
    requires NearlyAvl(t) && t.bal == -2 && t.left.Fork?
    ensures CanRebalance(t) && Avl(Rebalanced(t))
    ensures Height(Rebalanced(t)) == (if t.left.bal == 0 then Height(t) else Height(t) - 1)
    ensures t.left.bal != 0 ==> Rebalanced(t).bal == 0
  {
    hide Height, Avl;
    var Fork(Fork(l, b, bb, k), a, ab, r) := t;
    ForkAvl(l, b, bb, k);
    ForkAvl(t.left, a, ab, r);
    EmptyHeight(k);
    if bb == 1 {
      var Fork(m, c, cb, n) := k;
      var t' := LeftRight(t);
      ForkAvl(m, c, cb, n);
      ForkAvl(l, b, t'.left.bal, m);
      ForkAvl(n, a, t'.right.bal, r);
      ForkAvl(t'.left, c, 0, t'.right);
    } else {
      var t' := LeftLeft(t);
      ForkAvl(k, a, t'.right.bal, r);
      ForkAvl(l, b, t'.bal, t'.right);
    }
  }

  lemma RightHeavyIsAvl(t: Tree)
    requires NearlyAvl(t) && t.bal == 2 && t.right.Fork?
    ensures CanRebalance(t) && Avl(Rebalanced(t))
    ensures Height(Rebalanced(t)) == (if t.right.bal == 0 then Height(t) else Height(t) - 1)
    ensures t.right.bal != 0 ==> Rebalanced(t).bal == 0
  {
    hide Height, Avl;
    var Fork(l, a, ab, Fork(k, b, bb, r)) := t;
    ForkAvl(k, b, bb, r);
    ForkAvl(l, a, ab, t.right);
    EmptyHeight(k);
    if bb == -1 {
      var Fork(m, c, cb, n) := k;
      var t' := RightLeft(t);
      ForkAvl(m, c, cb, n);
      ForkAvl(l, a, t'.left.bal, m);
      ForkAvl(n, b, t'.right.bal, r);
      ForkAvl(t'.left, c, 0, t'.right);
    } else {
      var t' := RightRight(t);
      ForkAvl(l, a, t'.left.bal, k);
      ForkAvl(t'.left, b, t'.bal, r);
    }
  }

  // ---- the rotations in memory

  /** Makes b take the place of a below f, on whichever side a was. */
  method ReplaceChild(f: Node?, a: Node, b: Node?, ghost c: Path)
    requires PathApart(c) && PathLinks(c, a, null) && f == Above(c, null) && a !in PathNodes(c)
    modifies if f == null then {} else {f}
    ensures PathLinks(c, b, null)
  {
    if f != null {
      if f.right == a {
        f.right := b;
      } else {
        f.left := b;
      }
    }
  }

  ghost function Just(p: Node?): (r: set<Node>)
    ensures (forall x :: x in r ==> x == p) && (p != null ==> p in r)
  {
    if p == null then {} else {p}
  }

  /** Sets the parent link of the root p of t, if there is one. */
  method Adopt(p: Node?, par: Node?, ghost t: Tree, ghost old_par: Node?)
    requires Links(t, p, old_par) && Apart(t)
    modifies Just(p)`parent
    ensures Links(t, p, par)
  {
    if p != null {
      p.parent := par;
    }
  }

  /** Hangs tree t, with root p, on the left of a. */
  method SetLeft(a: Node, p: Node?, ghost t: Tree, ghost old_par: Node?)
    requires Links(t, p, old_par) && Apart(t) && a !in Nodes(t)
    modifies a`left, Just(p)`parent
    ensures a.left == p && Links(t, p, a)
  {
    RootInNodes(t, p, old_par);
    a.left := p;
    Adopt(p, a, t, old_par);
  }

  /** Hangs tree t, with root p, on the right of a. */
  method SetRight(a: Node, p: Node?, ghost t: Tree, ghost old_par: Node?)
    requires Links(t, p, old_par) && Apart(t) && a !in Nodes(t)
    modifies a`right, Just(p)`parent
    ensures a.right == p && Links(t, p, a)
  {
    RootInNodes(t, p, old_par);
    a.right := p;
    Adopt(p, a, t, old_par);
  }

  /** The four subtrees of t hang where they did before the double rotation: the inner two still on c. */
  ghost predicate Grouped(x: Node, c: Node, y: Node, t: Tree)
    requires t.Fork? && t.left.Fork? && t.right.Fork?
    reads x, c, y, Nodes(t.left.left), Nodes(t.left.right), Nodes(t.right.left), Nodes(t.right.right)
  {
    && c == t.node && x == t.left.node && y == t.right.node
    && c.balance == t.bal && x.balance == t.left.bal && y.balance == t.right.bal
    && Links(t.left.left, x.left, x) && Links(t.left.right, c.left, c)
    && Links(t.right.left, c.right, c) && Links(t.right.right, y.right, y)
  }

  /** The nodes and subtrees of t are apart from one another. */
  lemma PiecesApart(t: Tree)
    requires t.Fork? && t.left.Fork? && t.right.Fork? && Apart(t)
    ensures var Fork(Fork(l, x, _, m), c, _, Fork(n, y, _, r)) := t;
      && x != c && c != y && x != y && Apart(t.left) && Apart(t.right) && Apart(m) && Apart(n)
      && x in Nodes(t) && c in Nodes(t) && y in Nodes(t) && x in Nodes(t.left) && y in Nodes(t.right)
      && Nodes(l) <= Nodes(t) && Nodes(m) <= Nodes(t) && Nodes(n) <= Nodes(t) && Nodes(r) <= Nodes(t)
      && Nodes(t.left) <= Nodes(t) && Nodes(t.right) <= Nodes(t)
      && Nodes(t.left) !! Nodes(t.right) && c !in Nodes(t.left) && c !in Nodes(t.right)
      && {x, c, y} !! Nodes(l) !! Nodes(m) !! Nodes(n) !! Nodes(r)
  {
    var Fork(Fork(l, x, xb, m), c, cb, Fork(n, y, yb, r)) := t;
    hide Apart, Nodes;
    ForkContent(l, x, xb, m);
    ForkContent(n, y, yb, r);
    ForkContent(t.left, c, cb, t.right);
  }

  /** Moves the inner subtrees from c to x and y, and puts c above x and y and below f. */
  method Reassemble(x: Node, c: Node, y: Node, f: Node?, ghost t: Tree)
    requires t.Fork? && t.left.Fork? && t.right.Fork? && Apart(t) && Grouped(x, c, y, t) == true
    modifies Nodes(t)
    ensures Links(t, c, f)
  {
    hide Links, Apart, Nodes;
    TreeAllocated(t);
    PiecesApart(t);
    RootInNodes(t.left.right, c.left, c);
    RootInNodes(t.right.left, c.right, c);
    SetLeft(y, c.right, t.right.left, c);
    SetRight(x, c.left, t.left.right, c);
    Join(c, x, y, f, t);
  }

  /** Puts c above x and y, and below f. */
  method Join(c: Node, x: Node, y: Node, f: Node?, ghost t: Tree)
    requires t.Fork? && t.left.Fork? && t.right.Fork? && Apart(t)
    requires c == t.node && x == t.left.node && y == t.right.node
    requires Links(t.left.left, x.left, x) && Links(t.left.right, x.right, x) && x.balance == t.left.bal
    requires Links(t.right.left, y.left, y) && Links(t.right.right, y.right, y) && y.balance == t.right.bal
    requires c.balance == t.bal
    modifies {c, x, y}
    ensures Links(t, c, f)
  {
    hide Links, Apart, Nodes;
    TreeAllocated(t);
    PiecesApart(t);
    ForkLinks(t.left.left, x, t.left.bal, t.left.right, x.parent);
    ForkLinks(t.right.left, y, t.right.bal, t.right.right, y.parent);
    SetRight(c, y, t.right, y.parent);
    SetLeft(c, x, t.left, x.parent);
    c.parent := f;
    ForkLinks(t.left, c, t.bal, t.right, f);
  }

  method RotateRightRight(a: Node, ghost c: Path, ghost t: Tree) returns (b: Node, ghost t': Tree)
    requires At(c, t, a) && t.Fork? && t.right.Fork?
    modifies Nodes(t), PathNodes(c)
    ensures t' == RightRight(t) && At(c, t', b)
  {
    PathAllocated(c);
    TreeAllocated(t);
    RightRightContent(t);
    AboveInPath(c);
    var f := a.parent;
    b, t' := TurnRightRight(a, t, f);
    ReplaceChild(f, a, b, c);
  }

  lemma RightView(a: Node, t: Tree, f: Node?)
    requires Apart(t) && t.Fork? && t.right.Fork? && Links(t, a, f)
    ensures var Fork(l, a', ab, Fork(m, b, bb, r)) := t;
      && a == a' && b == a.right && b != a && a.balance == ab && b.balance == bb
      && Links(l, a.left, a) && Links(m, b.left, b) && Links(r, b.right, b) && Apart(m)
      && {a, b} !! Nodes(l) + Nodes(m) + Nodes(r) && Nodes(m) !! Nodes(l) + Nodes(r)
      && Nodes(t) == Nodes(l) + Nodes(m) + Nodes(r) + {a, b}
    ensures forall x :: x in Nodes(t) ==> allocated(x)
  {
    TreeAllocated(t);
    hide Nodes, Apart;
    var Fork(l, _, ab, Fork(m, b, bb, r)) := t;
    ForkLinks(l, a, ab, t.right, f);
    ForkLinks(m, b, bb, r, a);
    ForkContent(m, b, bb, r);
    ForkContent(l, a, ab, t.right);
  }

  method TurnRightRight(a: Node, ghost t: Tree, f: Node?) returns (b: Node, ghost t': Tree)
    requires Apart(t) && t.Fork? && t.right.Fork? && Links(t, a, f)
    modifies Nodes(t)
    ensures t' == RightRight(t) && Links(t', b, f)
  {
    hide Apart, Nodes, Links;
    ghost var Fork(l, _, ab, Fork(m, _, bb, r)) := t;
    t' := RightRight(t);
    RightView(a, t, f);
    b := a.right;
    RootInNodes(m, b.left, b);
    SetRight(a, b.left, m, b);
    b.left := a;
    a.parent := b;
    b.parent := f;
    if b.balance == 0 {
      a.balance := 1;
      b.balance := -1;
    } else {
      a.balance := 0;
      b.balance := 0;
    }
    assert Links(l, a.left, a) && Links(m, a.right, a) && Links(r, b.right, b);
    ForkLinks(l, a, t'.left.bal, m, b);
    ForkLinks(t'.left, b, t'.bal, r, f);
  }

  method RotateLeftLeft(a: Node, ghost c: Path, ghost t: Tree) returns (b: Node, ghost t': Tree)
    requires At(c, t, a) && t.Fork? && t.left.Fork?
    modifies Nodes(t), PathNodes(c)
    ensures t' == LeftLeft(t) && At(c, t', b)
  {
    PathAllocated(c);
    TreeAllocated(t);
    LeftLeftContent(t);
    AboveInPath(c);
    var f := a.parent;
    b, t' := TurnLeftLeft(a, t, f);
    ReplaceChild(f, a, b, c);
  }

  lemma LeftView(a: Node, t: Tree, f: Node?)
    requires Apart(t) && t.Fork? && t.left.Fork? && Links(t, a, f)
    ensures var Fork(Fork(l, b, bb, m), a', ab, r) := t;
      && a == a' && b == a.left && b != a && a.balance == ab && b.balance == bb
      && Links(l, b.left, b) && Links(m, b.right, b) && Links(r, a.right, a) && Apart(m)
      && {a, b} !! Nodes(l) + Nodes(m) + Nodes(r) && Nodes(m) !! Nodes(l) + Nodes(r)
      && Nodes(t) == Nodes(l) + Nodes(m) + Nodes(r) + {a, b}
    ensures forall x :: x in Nodes(t) ==> allocated(x)
  {
    TreeAllocated(t);
    hide Nodes, Apart;
    var Fork(Fork(l, b, bb, m), _, ab, r) := t;
    ForkLinks(t.left, a, ab, r, f);
    ForkLinks(l, b, bb, m, a);
    ForkContent(l, b, bb, m);
    ForkContent(t.left, a, ab, r);
  }

  method TurnLeftLeft(a: Node, ghost t: Tree, f: Node?) returns (b: Node, ghost t': Tree)
    requires Apart(t) && t.Fork? && t.left.Fork? && Links(t, a, f)
    modifies Nodes(t)
    ensures t' == LeftLeft(t) && Links(t', b, f)
  {
    hide Apart, Nodes, Links;
    ghost var Fork(Fork(l, _, bb, m), _, ab, r) := t;
    t' := LeftLeft(t);
    LeftView(a, t, f);
    b := a.left;
    RootInNodes(m, b.right, b);
    SetLeft(a, b.right, m, b);
    b.right := a;
    a.parent := b;
    b.parent := f;
    if b.balance == 0 {
      a.balance := -1;
      b.balance := 1;
    } else {
      a.balance := 0;
      b.balance := 0;
    }
    assert Links(l, b.left, b) && Links(m, a.left, a) && Links(r, a.right, a);
    ForkLinks(m, a, t'.right.bal, r, b);
    ForkLinks(l, b, t'.bal, t'.right, f);
  }

  lemma SidesView(c: Node, t: Tree, f: Node?)
    requires t.Fork? && t.left.Fork? && t.right.Fork? && Apart(t) && Links(t, c, f)
    ensures var Fork(Fork(l, x, xb, m), c', cb, Fork(n, y, yb, r)) := t;
      && c' == c && x == c.left && y == c.right && x != y && c != x && c != y
      && c.parent == f && x.parent == c && y.parent == c && c.balance == cb && x.balance == xb && y.balance == yb
      && Links(l, x.left, x) && Links(m, x.right, x) && Links(n, y.left, y) && Links(r, y.right, y)
      && {c, x, y} !! Nodes(l) + Nodes(m) + Nodes(n) + Nodes(r)
      && Nodes(t) == Nodes(l) + Nodes(m) + Nodes(n) + Nodes(r) + {c, x, y}
    ensures forall v :: v in Nodes(t) ==> allocated(v)
  {
    TreeAllocated(t);
    hide Apart, Nodes;
    var Fork(Fork(l, x, xb, m), _, cb, Fork(n, y, yb, r)) := t;
    ForkContent(l, x, xb, m);
    ForkContent(n, y, yb, r);
    ForkContent(t.left, c, cb, t.right);
    ForkLinks(l, x, xb, m, c);
    ForkLinks(n, y, yb, r, c);
    ForkLinks(t.left, c, cb, t.right, f);
  }

  /** The balance switch that ends both double rotations. */
  method SetBalances(c: Node, ghost t: Tree, ghost f: Node?) returns (ghost t': Tree)
    requires t.Fork? && t.left.Fork? && t.right.Fork? && Apart(t) && Links(t, c, f)
    modifies Nodes(t)
    ensures t' == WithBalances(t) && Links(t', c, f)
  {
    hide Apart, Nodes, Links;
    ghost var Fork(Fork(l, _, xb, m), _, cb, Fork(n, _, yb, r)) := t;
    t' := WithBalances(t);
    var x, y := c.left, c.right;
    SidesView(c, t, f);
    match c.balance {
      case 0 =>
        y.balance := 0;
        x.balance := 0;
      case -1 =>
        y.balance := 1;
        x.balance := 0;
      case 1 =>
        y.balance := 0;
        x.balance := -1;
      case _ =>
    }
    c.balance := 0;
    assert Links(l, x.left, x) && Links(m, x.right, x) && Links(n, y.left, y) && Links(r, y.right, y);
    ForkLinks(l, x, t'.left.bal, m, c);
    ForkLinks(n, y, t'.right.bal, r, c);
    ForkLinks(t'.left, c, 0, t'.right, f);
  }

  method RotateLeftRight(a: Node, ghost c: Path, ghost t: Tree) returns (b: Node, ghost t': Tree)
    requires At(c, t, a) && t.Fork? && t.left.Fork? && t.left.right.Fork?
    modifies Nodes(t), PathNodes(c)
    ensures t' == LeftRight(t) && At(c, t', b)
  {
    PathAllocated(c);
    TreeAllocated(t);
    LeftRightContent(t);
    AboveInPath(c);
    var f := a.parent;
    b, t' := TurnLeftRight(a, t, f);
    ReplaceChild(f, a, b, c);
  }

  method RelinkLeftRight(a: Node, ghost t: Tree, f: Node?) returns (c: Node, ghost t': Tree)
    requires Apart(t) && t.Fork? && t.left.Fork? && t.left.right.Fork? && Links(t, a, f)
    modifies Nodes(t)
    ensures t' == LeftRightLinks(t) && Links(t', c, f)
  {
    hide Links, Apart, Nodes, InOrder;
    LeftRightContent(t);
    LeftRightOpened(t, a, f);
    var b := a.left;
    c := b.right;
    t' := LeftRightLinks(t);
    Reassemble(b, c, a, f, t');
  }

  lemma LeftRightOpened(t: Tree, a: Node, f: Node?)
    requires t.Fork? && t.left.Fork? && t.left.right.Fork? && Links(t, a, f)
    ensures a == t.node && a.left == t.left.node && a.left.right == t.left.right.node
    ensures Grouped(a.left, a.left.right, a, LeftRightLinks(t))
  {
    ForkLinks(t.left, a, t.bal, t.right, f);
    ForkLinks(t.left.left, a.left, t.left.bal, t.left.right, a);
    ForkLinks(t.left.right.left, a.left.right, t.left.right.bal, t.left.right.right, a.left);
  }

  method TurnLeftRight(a: Node, ghost t: Tree, f: Node?) returns (c: Node, ghost t': Tree)
    requires Apart(t) && t.Fork? && t.left.Fork? && t.left.right.Fork? && Links(t, a, f)
    modifies Nodes(t)
    ensures t' == LeftRight(t) && Links(t', c, f)
  {
    LeftRightContent(t);
    c, t' := RelinkLeftRight(a, t, f);
    t' := SetBalances(c, t', f);
  }

  method RotateRightLeft(a: Node, ghost c: Path, ghost t: Tree) returns (b: Node, ghost t': Tree)
    requires At(c, t, a) && t.Fork? && t.right.Fork? && t.right.left.Fork?
    modifies Nodes(t), PathNodes(c)
    ensures t' == RightLeft(t) && At(c, t', b)
  {
    PathAllocated(c);
    TreeAllocated(t);
    RightLeftContent(t);
    AboveInPath(c);
    var f := a.parent;
    b, t' := TurnRightLeft(a, t, f);
    ReplaceChild(f, a, b, c);
  }

  method RelinkRightLeft(a: Node, ghost t: Tree, f: Node?) returns (c: Node, ghost t': Tree)
    requires Apart(t) && t.Fork? && t.right.Fork? && t.right.left.Fork? && Links(t, a, f)
    modifies Nodes(t)
    ensures t' == RightLeftLinks(t) && Links(t', c, f)
  {
    hide Links, Apart, Nodes, InOrder;
    RightLeftContent(t);
    RightLeftOpened(t, a, f);
    var b := a.right;
    c := b.left;
    t' := RightLeftLinks(t);
    Reassemble(a, c, b, f, t');
  }

  lemma RightLeftOpened(t: Tree, a: Node, f: Node?)
    requires t.Fork? && t.right.Fork? && t.right.left.Fork? && Links(t, a, f)
    ensures a == t.node && a.right == t.right.node && a.right.left == t.right.left.node
    ensures Grouped(a, a.right.left, a.right, RightLeftLinks(t))
  {
    ForkLinks(t.left, a, t.bal, t.right, f);
    ForkLinks(t.right.left, a.right, t.right.bal, t.right.right, a);
    ForkLinks(t.right.left.left, a.right.left, t.right.left.bal, t.right.left.right, a.right);
  }

  method TurnRightLeft(a: Node, ghost t: Tree, f: Node?) returns (c: Node, ghost t': Tree)
    requires Apart(t) && t.Fork? && t.right.Fork? && t.right.left.Fork? && Links(t, a, f)
    modifies Nodes(t)
    ensures t' == RightLeft(t) && Links(t', c, f)
  {
    RightLeftContent(t);
    c, t' := RelinkRightLeft(a, t, f);
    t' := SetBalances(c, t', f);
  }

  /** Chooses the rotation by the balance of n and of its heavier child. */
  method Rebalance(n: Node, ghost c: Path, ghost t: Tree) returns (r: Node, ghost t': Tree)
    requires At(c, t, n) && CanRebalance(t)
    modifies Nodes(t), PathNodes(c)
    ensures t' == Rebalanced(t) && At(c, t', r)
  {
    ForkLinks(t.left, n, t.bal, t.right, Above(c, null));
    var child := if n.balance == -2 then n.left else n.right;
    var rtype: bv4 := if n.balance == -2 then AVL_LEFT else AVL_RIGHT;
    assert child != null && child.balance == if t.bal == -2 then t.left.bal else t.right.bal;
    if child.balance == 0 {
      rtype := rtype | (rtype << 2);
    } else {
      rtype := rtype | (if child.balance == -1 then AVL_LEFT << 2 else AVL_RIGHT << 2);
    }
    if rtype == AVL_LEFTRIGHT {
      r, t' := RotateLeftRight(n, c, t);
    } else if rtype == AVL_RIGHTLEFT {
      r, t' := RotateRightLeft(n, c, t);
    } else if rtype == AVL_LEFTLEFT {
      r, t' := RotateLeftLeft(n, c, t);
    } else {
      assert rtype == AVL_RIGHTRIGHT;
      r, t' := RotateRightRight(n, c, t);
    }
  }
}
