/**
Nodes with parent links, and the shape a set of linked nodes has: a tree, or a tree with one subtree taken out.
Shapes are values; the predicates Links and PathLinks say that the fields in memory have that shape.
 */
module AvlShape {

  class Node {
    const key: int
    const data: object?
    var parent: Node?
    var left: Node?
    var right: Node?
    var balance: int

    constructor (key: int, data: object?)
      ensures this.key == key && this.data == data
      ensures parent == null && left == null && right == null && balance == 0
    {
      this.key, this.data := key, data;
      parent, left, right, balance := null, null, null, 0;
    }
  }

  // ---- trees

  datatype Tree = Leaf | Fork(left: Tree, node: Node, bal: int, right: Tree)

  function Max(a: int, b: int): int { if a < b then b else a }

  ghost function Height(t: Tree): nat {
    match t
    case Leaf => 0
    case Fork(l, _, _, r) => 1 + Max(Height(l), Height(r))
  }

  ghost function Nodes(t: Tree): set<Node> {
    match t
    case Leaf => {}
    case Fork(l, n, _, r) => Nodes(l) + {n} + Nodes(r)
  }

  ghost function InOrder(t: Tree): seq<Node> {
    match t
    case Leaf => []
    case Fork(l, n, _, r) => InOrder(l) + [n] + InOrder(r)
  }

  /** No node occurs twice. */
  ghost predicate Apart(t: Tree) {
    match t
    case Leaf => true
    case Fork(l, n, _, r) => n !in Nodes(l) && n !in Nodes(r) && Nodes(l) !! Nodes(r) && Apart(l) && Apart(r)
  }

  /** Every stored balance is exact and between -1 and 1. */
  ghost predicate Avl(t: Tree) {
    match t
    case Leaf => true
    case Fork(l, _, b, r) => b == Height(r) - Height(l) && -1 <= b <= 1 && Avl(l) && Avl(r)
  }

  /** As Avl, but the root may be out of balance by two. */
  ghost predicate NearlyAvl(t: Tree) {
    t.Fork? && t.bal == Height(t.right) - Height(t.left) && -2 <= t.bal <= 2 && Avl(t.left) && Avl(t.right)
  }

  /** In memory, p is the root of tree t and its parent link is par. */
  ghost predicate Links(t: Tree, p: Node?, par: Node?)
    reads Nodes(t)
  {
    match t
    case Leaf => p == null
    case Fork(l, n, b, r) =>
      p == n && n.parent == par && n.balance == b && Links(l, n.left, n) && Links(r, n.right, n)
  }

  // ---- the definitions, one fork at a time

  lemma ForkContent(l: Tree, n: Node, b: int, r: Tree)
    ensures var t := Fork(l, n, b, r);
      && Nodes(t) == Nodes(l) + {n} + Nodes(r)
      && InOrder(t) == InOrder(l) + [n] + InOrder(r)
      && (Apart(t) <==> n !in Nodes(l) && n !in Nodes(r) && Nodes(l) !! Nodes(r) && Apart(l) && Apart(r))
  {}

  lemma ForkAvl(l: Tree, n: Node, b: int, r: Tree)
    ensures Height(Fork(l, n, b, r)) == 1 + Max(Height(l), Height(r))
    ensures Avl(Fork(l, n, b, r)) <==> b == Height(r) - Height(l) && -1 <= b <= 1 && Avl(l) && Avl(r)
  {}

  lemma PlugFork(c: Path, t: Tree)
    requires t.Fork?
    ensures var Fork(l, n, b, r) := t;
      && Plug(InLeft(c, n, b, r), l) == Plug(InRight(l, n, b, c), r) == Plug(c, t)
      && Height(l) < Height(t) && Height(r) < Height(t)
  {}

  /** The number of levels above the subtree in the hole. */
  ghost function Depth(c: Path): nat {
    match c
    case Top => 0
    case InLeft(up, _, _, _) => Depth(up) + 1
    case InRight(_, _, _, up) => Depth(up) + 1
  }

  /** p is the root of a subtree d levels down, null of an empty one. */
  ghost predicate AtDepth(t: Tree, p: Node?, d: nat) {
    if d == 0 then p == TreeRoot(t)
    else t.Fork? && (AtDepth(t.left, p, d - 1) || AtDepth(t.right, p, d - 1))
  }

  lemma {:induction false} PlugFurther(c: Path, t: Tree, p: Node?, d: nat)
    requires AtDepth(t, p, d)
    ensures AtDepth(Plug(c, t), p, d + Depth(c))
    decreases c
  {
    match c
    case Top =>
    case InLeft(up, n, b, r) => PlugFurther(up, Fork(t, n, b, r), p, d + 1);
    case InRight(l, n, b, up) => PlugFurther(up, Fork(l, n, b, t), p, d + 1);
  }

  lemma PlugDepth(c: Path, t: Tree)
    ensures AtDepth(Plug(c, t), TreeRoot(t), Depth(c))
  {
    PlugFurther(c, t, TreeRoot(t), 0);
  }

  lemma ForkLinks(l: Tree, n: Node, b: int, r: Tree, par: Node?)
    ensures Links(Fork(l, n, b, r), n, par) <==>
            n.parent == par && n.balance == b && Links(l, n.left, n) && Links(r, n.right, n)
  {}

  lemma ForkRoot(l: Tree, n: Node, b: int, r: Tree, p: Node?, par: Node?)
    requires Links(Fork(l, n, b, r), p, par)
    ensures p == n
  {}

  lemma RootInNodes(t: Tree, p: Node?, par: Node?)
    requires Links(t, p, par)
    ensures p == TreeRoot(t) && (p == null <==> t.Leaf?) && (p != null ==> p in Nodes(t))
  {}

  lemma EmptyHeight(t: Tree)
    ensures Height(t) == 0 <==> t.Leaf?
  {}

  // ---- trees with a hole

  /** The way from a hole up to the root: at each node, the side the hole is not on. */
  datatype Path =
    | Top
    | InLeft(up: Path, node: Node, bal: int, right: Tree)
    | InRight(left: Tree, node: Node, bal: int, up: Path)

  ghost function Plug(c: Path, t: Tree): Tree {
    match c
    case Top => t
    case InLeft(up, n, b, r) => Plug(up, Fork(t, n, b, r))
    case InRight(l, n, b, up) => Plug(up, Fork(l, n, b, t))
  }

  ghost function PathNodes(c: Path): set<Node> {
    match c
    case Top => {}
    case InLeft(up, n, _, r) => PathNodes(up) + {n} + Nodes(r)
    case InRight(l, n, _, up) => PathNodes(up) + {n} + Nodes(l)
  }

  /** The nodes before and after the hole in key order. */
  ghost function Before(c: Path): seq<Node> {
    match c
    case Top => []
    case InLeft(up, _, _, _) => Before(up)
    case InRight(l, n, _, up) => Before(up) + (InOrder(l) + [n])
  }

  ghost function After(c: Path): seq<Node> {
    match c
    case Top => []
    case InLeft(up, n, _, r) => ([n] + InOrder(r)) + After(up)
    case InRight(_, _, _, up) => After(up)
  }

  ghost predicate PathApart(c: Path) {
    match c
    case Top => true
    case InLeft(up, n, _, r) =>
      n !in PathNodes(up) && n !in Nodes(r) && Nodes(r) !! PathNodes(up) && Apart(r) && PathApart(up)
    case InRight(l, n, _, up) =>
      n !in PathNodes(up) && n !in Nodes(l) && Nodes(l) !! PathNodes(up) && Apart(l) && PathApart(up)
  }

  /** The stored balances along the way are exact for a subtree of height h in the hole. */
  ghost predicate PathAvl(c: Path, h: int) {
    match c
    case Top => true
    case InLeft(up, _, b, r) =>
      b == Height(r) - h && -1 <= b <= 1 && Avl(r) && PathAvl(up, 1 + Max(h, Height(r)))
    case InRight(l, _, b, up) =>
      b == h - Height(l) && -1 <= b <= 1 && Avl(l) && PathAvl(up, 1 + Max(Height(l), h))
  }

  /** The node just above the hole; base is what lies above the topmost node. */
  ghost function Above(c: Path, base: Node?): Node? {
    match c
    case Top => base
    case InLeft(_, n, _, _) => n
    case InRight(_, n, _, _) => n
  }

  /** In memory, the nodes along the way are linked so that p sits in the hole. */
  ghost predicate PathLinks(c: Path, p: Node?, base: Node?)
    reads PathNodes(c)
  {
    match c
    case Top => true
    case InLeft(up, n, b, r) =>
      n.left == p && n.parent == Above(up, base) && n.balance == b && Links(r, n.right, n) && PathLinks(up, n, base)
    case InRight(l, n, b, up) =>
      n.right == p && n.parent == Above(up, base) && n.balance == b && Links(l, n.left, n) && PathLinks(up, n, base)
  }

  /** The topmost node: the root, when p sits in the hole. */
  ghost function RootOf(c: Path, p: Node?): Node? {
    match c
    case Top => p
    case InLeft(up, n, _, _) => RootOf(up, n)
    case InRight(_, n, _, up) => RootOf(up, n)
  }

  lemma AboveInPath(c: Path)
    ensures Above(c, null) == null || Above(c, null) in PathNodes(c)
  {}

  ghost predicate Separate(c: Path, t: Tree) {
    Apart(t) && PathApart(c) && Nodes(t) !! PathNodes(c)
  }

  /** In memory, tree t hangs in the hole of c with root p. */
  ghost predicate At(c: Path, t: Tree, p: Node?)
    reads Nodes(t), PathNodes(c)
  {
    Separate(c, t) && PathLinks(c, p, null) && Links(t, p, Above(c, null))
  }

  lemma PathStep(c: Path, p: Node?, base: Node?)
    requires !c.Top?
    ensures var (up, n, b, t) := match c
        case InLeft(up, n, b, r) => (up, n, b, r)
        case InRight(l, n, b, up) => (up, n, b, l);
      && PathNodes(c) == PathNodes(up) + {n} + Nodes(t)
      && (PathApart(c) <==>
            n !in PathNodes(up) && n !in Nodes(t) && Nodes(t) !! PathNodes(up) && Apart(t) && PathApart(up))
      && (PathLinks(c, p, base) <==>
            && (if c.InLeft? then n.left == p && Links(t, n.right, n) else n.right == p && Links(t, n.left, n))
            && n.parent == Above(up, base) && n.balance == b && PathLinks(up, n, base))
  {}

  /** Shapes mention allocated nodes only. */
  lemma {:induction false} TreeAllocated(t: Tree)
    ensures forall x :: x in Nodes(t) ==> allocated(x)
  {
    if t.Fork? {
      TreeAllocated(t.left);
      TreeAllocated(t.right);
    }
  }

  lemma {:induction false} PathAllocated(c: Path)
    ensures forall x :: x in PathNodes(c) ==> allocated(x)
  {
    match c
    case Top =>
    case InLeft(up, _, _, r) => TreeAllocated(r); PathAllocated(up);
    case InRight(l, _, _, up) => TreeAllocated(l); PathAllocated(up);
  }

  // ---- taking a tree apart and putting it together

  lemma {:induction false} PlugNodes(c: Path, t: Tree)
    ensures Nodes(Plug(c, t)) == Nodes(t) + PathNodes(c)
    decreases c
  {
    match c
    case Top =>
    case InLeft(up, n, b, r) => PlugNodes(up, Fork(t, n, b, r));
    case InRight(l, n, b, up) => PlugNodes(up, Fork(l, n, b, t));
  }

  lemma Regroup<T>(u: seq<T>, a: seq<T>, b: seq<T>, c: seq<T>, v: seq<T>)
    ensures u + (a + b + c) + v == u + a + ((b + c) + v)
    ensures u + (a + b + c) + v == (u + (a + b)) + c + v
  {}

  lemma {:induction false} PlugInOrder(c: Path, t: Tree)
    ensures InOrder(Plug(c, t)) == Before(c) + InOrder(t) + After(c)
    decreases c
  {
    match c
    case Top =>
    case InLeft(up, n, b, r) =>
      PlugInOrder(up, Fork(t, n, b, r));
      Regroup(Before(up), InOrder(t), [n], InOrder(r), After(up));
    case InRight(l, n, b, up) =>
      PlugInOrder(up, Fork(l, n, b, t));
      Regroup(Before(up), InOrder(l), [n], InOrder(t), After(up));
  }

  /** A whole tree in memory is any of its subtrees hanging in what surrounds it. */
  lemma {:induction false} LinksPlug(c: Path, t: Tree, p: Node?)
    ensures Apart(Plug(c, t)) <==> Separate(c, t)
    ensures Separate(c, t) ==> (Links(Plug(c, t), RootOf(c, p), null) && p == TreeRoot(t) <==>
                                Links(t, p, Above(c, null)) && PathLinks(c, p, null))
    decreases c
  {
    match c
    case Top =>
    case InLeft(up, n, b, r) => LinksPlug(up, Fork(t, n, b, r), n);
    case InRight(l, n, b, up) => LinksPlug(up, Fork(l, n, b, t), n);
  }

  ghost function TreeRoot(t: Tree): Node? {
    if t.Leaf? then null else t.node
  }

  lemma {:induction false} PathAvlPlug(c: Path, t: Tree)
    ensures Avl(Plug(c, t)) <==> Avl(t) && PathAvl(c, Height(t))
    decreases c
  {
    hide Height, Avl, Max;
    match c
    case Top =>
    case InLeft(up, n, b, r) =>
      ForkAvl(t, n, b, r);
      PathAvlPlug(up, Fork(t, n, b, r));
    case InRight(l, n, b, up) =>
      ForkAvl(l, n, b, t);
      PathAvlPlug(up, Fork(l, n, b, t));
  }

  /** Every node of a tree is the root of a subtree. */
  lemma {:induction false} Locate(c: Path, t: Tree, n: Node) returns (c': Path, t': Tree)
    requires n in Nodes(t)
    ensures t'.Fork? && t'.node == n && Plug(c', t') == Plug(c, t)
    decreases t
  {
    var Fork(l, m, b, r) := t;
    if m == n {
      c', t' := c, t;
    } else if n in Nodes(l) {
      c', t' := Locate(InLeft(c, m, b, r), l, n);
    } else {
      c', t' := Locate(InRight(l, m, b, c), r, n);
    }
  }

  // ---- one way continued by another

  ghost function Append(c: Path, d: Path): Path {
    match c
    case Top => d
    case InLeft(up, n, b, r) => InLeft(Append(up, d), n, b, r)
    case InRight(l, n, b, up) => InRight(l, n, b, Append(up, d))
  }

  lemma {:induction false} PlugAppend(c: Path, d: Path, t: Tree)
    ensures Plug(Append(c, d), t) == Plug(d, Plug(c, t))
    decreases c
  {
    match c
    case Top =>
    case InLeft(up, n, b, r) => PlugAppend(up, d, Fork(t, n, b, r));
    case InRight(l, n, b, up) => PlugAppend(up, d, Fork(l, n, b, t));
  }

  lemma {:induction false} AppendNodes(c: Path, d: Path)
    ensures PathNodes(Append(c, d)) == PathNodes(c) + PathNodes(d)
    ensures PathApart(Append(c, d)) <==> PathApart(c) && PathApart(d) && PathNodes(c) !! PathNodes(d)
    decreases c
  {
    match c
    case Top =>
    case InLeft(up, _, _, _) => AppendNodes(up, d);
    case InRight(_, _, _, up) => AppendNodes(up, d);
  }

  lemma ConcatAssoc<T>(a: seq<T>, b: seq<T>, c: seq<T>)
    ensures a + b + c == a + (b + c)
  {}

  lemma {:induction false} AppendInOrder(c: Path, d: Path)
    ensures Before(Append(c, d)) == Before(d) + Before(c)
    ensures After(Append(c, d)) == After(c) + After(d)
    decreases c
  {
    match c
    case Top =>
    case InLeft(up, n, _, r) =>
      AppendInOrder(up, d);
      ConcatAssoc([n] + InOrder(r), After(up), After(d));
    case InRight(l, n, _, up) =>
      AppendInOrder(up, d);
      ConcatAssoc(Before(d), Before(up), InOrder(l) + [n]);
  }

  lemma {:induction false} AppendLinks(c: Path, d: Path, p: Node?, base: Node?)
    ensures Above(Append(c, d), base) == Above(c, Above(d, base))
    ensures PathLinks(Append(c, d), p, base) <==>
            PathLinks(c, p, Above(d, base)) && PathLinks(d, RootOf(c, p), base)
    decreases c
  {
    match c
    case Top =>
    case InLeft(up, n, _, _) => AppendLinks(up, d, n, base);
    case InRight(_, n, _, up) => AppendLinks(up, d, n, base);
  }

  /** Balances along a way do not depend on which node carries them. */
  lemma {:induction false} RenameKeepsAvl(c: Path, l: Tree, n: Node, s: Node, b: int, up: Path, h: int)
    ensures PathAvl(Append(c, InRight(l, n, b, up)), h) <==> PathAvl(Append(c, InRight(l, s, b, up)), h)
    decreases c
  {
    hide Height, Avl, Max;
    match c
    case Top =>
    case InLeft(c', _, _, r) => RenameKeepsAvl(c', l, n, s, b, up, 1 + Max(h, Height(r)));
    case InRight(l', _, _, c') => RenameKeepsAvl(c', l, n, s, b, up, 1 + Max(Height(l'), h));
  }
}
