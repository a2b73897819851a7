/**
A queue whose nodes store the exclusive-or of their neighbours' addresses.
 */
module XorQueues {
  /** A pointer as the number it is. */
  type Addr = nat

  const NULL: Addr := 0

  /** Exclusive or, bit by bit from the lowest. */
  function Xor(a: Addr, b: Addr): Addr {
    if a == 0 then b else if b == 0 then a
    else 2 * Xor(a / 2, b / 2) + if a % 2 == b % 2 then 0 else 1
  }

  lemma {:induction false} XorStep(a: Addr, b: Addr)
    ensures Xor(a, b) / 2 == Xor(a / 2, b / 2) && Xor(a, b) % 2 == if a % 2 == b % 2 then 0 else 1
  {}

  lemma {:induction false} XorSame(a: Addr)
    ensures Xor(a, a) == NULL
  {
    if a != 0 { XorSame(a / 2); }
  }

  lemma {:induction false} XorCommutes(a: Addr, b: Addr)
    ensures Xor(a, b) == Xor(b, a)
  {
    if a != 0 && b != 0 { XorCommutes(a / 2, b / 2); }
  }

  lemma {:induction false} XorUndone(a: Addr, b: Addr)
    ensures Xor(a, Xor(a, b)) == b
    decreases a + b
  {
    XorStep(a, b);
    XorStep(a, Xor(a, b));
    if a == 0 || b == 0 {
      XorSame(a);
    } else {
      XorUndone(a / 2, b / 2);
    }
  }

  lemma XorCancels(a: Addr, b: Addr)
    ensures Xor(a, Xor(a, b)) == b && Xor(Xor(a, b), a) == b && Xor(a, b) == Xor(b, a)
    ensures Xor(a, NULL) == a && Xor(NULL, a) == a
  {
    XorUndone(a, b);
    XorCommutes(a, b);
    XorCommutes(a, Xor(a, b));
  }

  datatype Cell = Cell(link: Addr, data: Addr)

  class Memory {
    var cells: map<Addr, Cell>

    constructor ()
      ensures cells == map[]
    {
      cells := map[];
    }
  }

  // ---- chains

  /** The i-th address of a chain; NULL before its front and after its back. */
  function Neighbour(s: seq<Addr>, i: int): Addr {
    if 0 <= i < |s| then s[i] else NULL
  }

  ghost predicate LinkedAt(m: map<Addr, Cell>, s: seq<Addr>, i: nat)
    requires i < |s|
  {
    s[i] != NULL && s[i] in m && m[s[i]].link == Xor(Neighbour(s, i - 1), Neighbour(s, i + 1))
  }

  ghost predicate Linked(m: map<Addr, Cell>, s: seq<Addr>) {
    (forall i :: 0 <= i < |s| ==> LinkedAt(m, s, i)) && forall i, j :: 0 <= i < j < |s| ==> s[i] != s[j]
  }

  ghost function Values(m: map<Addr, Cell>, s: seq<Addr>): seq<Addr>
    requires forall a :: a in s ==> a in m
  {
    seq(|s|, i requires 0 <= i < |s| => m[s[i]].data)
  }

  lemma LinkedAllocated(m: map<Addr, Cell>, s: seq<Addr>)
    requires Linked(m, s)
    ensures forall a :: a in s ==> a in m && a != NULL
    ensures forall i :: 0 <= i < |s| ==> s[i] != NULL
    ensures s == [] <==> Neighbour(s, 0) == NULL
    ensures s == [] <==> Neighbour(s, |s| - 1) == NULL
  {
    if s != [] { assert LinkedAt(m, s, 0) && LinkedAt(m, s, |s| - 1); }
    forall i | 0 <= i < |s| ensures s[i] != NULL {
      assert LinkedAt(m, s, i);
    }
    forall a | a in s ensures a in m && a != NULL {
      var i :| 0 <= i < |s| && s[i] == a;
      assert LinkedAt(m, s, i);
    }
  }

  /** Writes to other cells leave a chain as it is. */
  lemma LinkedFrame(m: map<Addr, Cell>, m': map<Addr, Cell>, s: seq<Addr>)
    requires Linked(m, s) && forall a :: a in s ==> a in m' && (a in m ==> m'[a] == m[a])
    ensures Linked(m', s) && (forall a :: a in s ==> a in m) && Values(m', s) == Values(m, s)
  {
    LinkedAllocated(m, s);
    forall i | 0 <= i < |s| ensures LinkedAt(m', s, i) {
      assert LinkedAt(m, s, i);
    }
  }

  /** Read from its back, a chain is the reversed chain. */
  lemma LinkedBackwards(m: map<Addr, Cell>, s: seq<Addr>)
    requires Linked(m, s)
    ensures Linked(m, Backwards(s))
  {
    var t := Backwards(s);
    forall i | 0 <= i < |t| ensures LinkedAt(m, t, i) {
      assert LinkedAt(m, s, |s| - 1 - i);
      XorCancels(Neighbour(t, i - 1), Neighbour(t, i + 1));
      hide Xor;
    }
  }

  function Backwards(s: seq<Addr>): seq<Addr> {
    seq(|s|, i requires 0 <= i < |s| => s[|s| - 1 - i])
  }

  /** Chain s with one more node at the back. */
  lemma LinkedAppend(m: map<Addr, Cell>, m': map<Addr, Cell>, s: seq<Addr>, n: Addr)
    requires Linked(m, s) && n != NULL && n !in m && n in m' && m'[n].link == Neighbour(s, |s| - 1)
    requires forall a :: a in m && (s != [] ==> a != s[|s| - 1]) ==> a in m' && m'[a] == m[a]
    requires s != [] ==> var a := s[|s| - 1];
      a in m && a in m' && m'[a].data == m[a].data && m'[a].link == Xor(Neighbour(s, |s| - 2), n)
    ensures Linked(m', s + [n])
    ensures (forall a :: a in s ==> a in m) && Values(m', s + [n]) == Values(m, s) + [m'[n].data]
  {
    hide Xor;
    LinkedAllocated(m, s);
    XorCancels(Neighbour(s, |s| - 1), NULL);
    var t := s + [n];
    forall i | 0 <= i < |t| ensures LinkedAt(m', t, i) {
      if i < |s| { assert LinkedAt(m, s, i); }
      assert Neighbour(t, i - 1) == Neighbour(s, i - 1);
    }
    LinkedAllocated(m', t);
  }

  /** Chain s without its front node. */
  lemma LinkedTail(m: map<Addr, Cell>, m': map<Addr, Cell>, s: seq<Addr>)
    requires Linked(m, s) && s != [] && (forall a :: a in m && (|s| > 1 ==> a != s[1]) ==> a in m' && m'[a] == m[a])
    requires |s| > 1 ==> s[1] in m && s[1] in m' && m'[s[1]].data == m[s[1]].data && m'[s[1]].link == Neighbour(s, 2)
    ensures Linked(m', s[1..])
    ensures (forall a :: a in s ==> a in m) && Values(m', s[1..]) == Values(m, s)[1..]
  {
    LinkedAllocated(m, s);
    XorCancels(Neighbour(s, 2), NULL);
    hide Xor;
    var t := s[1..];
    forall i | 0 <= i < |t| ensures LinkedAt(m', t, i) {
      assert LinkedAt(m, s, i + 1);
      assert Neighbour(t, i + 1) == Neighbour(s, i + 2);
    }
    LinkedAllocated(m', t);
  }

  lemma FrontLinks(m: map<Addr, Cell>, s: seq<Addr>)
    requires Linked(m, s) && s != []
    ensures s[0] in m && m[s[0]].link == Neighbour(s, 1)
    ensures |s| > 1 ==> s[1] != NULL && s[1] in m && Xor(m[s[1]].link, s[0]) == Neighbour(s, 2)
  {
    assert LinkedAt(m, s, 0);
    XorCancels(Neighbour(s, 1), NULL);
    XorCancels(s[0], Neighbour(s, 2));
    hide Xor;
    if |s| > 1 { assert LinkedAt(m, s, 1); }
  }

  lemma BackLinks(m: map<Addr, Cell>, s: seq<Addr>)
    requires Linked(m, s) && s != []
    ensures var a := s[|s| - 1]; a in m && a != NULL && m[a].link == Neighbour(s, |s| - 2)
    ensures |s| > 1 ==> Neighbour(s, |s| - 2) != NULL
  {
    assert LinkedAt(m, s, |s| - 1);
    XorCancels(Neighbour(s, |s| - 2), NULL);
    hide Xor;
    if |s| > 1 { assert LinkedAt(m, s, |s| - 2); }
  }

  // ---- traversal

  /** The traversal takes an inner node for the end of the chain: its own address is what it stores. */
  ghost predicate LooksLikeEnd(s: seq<Addr>, i: nat) {
    0 < i < |s| - 1 && Xor(s[i - 1], s[i + 1]) == s[i]
  }

  lemma NeighbourIs(s: seq<Addr>, i: int)
    requires 0 <= i
    ensures if i < |s| then Neighbour(s, i) == s[i] else Neighbour(s, i) == NULL
  {}

  /** What node i of the chain says to one coming from the node before, or standing at the first node. */
  lemma OneNodeOn(m: map<Addr, Cell>, s: seq<Addr>, i: nat, prev: Addr)
    requires Linked(m, s) && i < |s| && prev == if i == 0 then s[0] else s[i - 1]
    ensures s[i] in m && (m[s[i]].link == s[i] <==> LooksLikeEnd(s, i))
    ensures s[i] == prev <==> i == 0
    ensures (if i == 0 then m[s[i]].link else Xor(prev, m[s[i]].link)) == Neighbour(s, i + 1)
  {
    assert LinkedAt(m, s, i);
    XorCancels(Neighbour(s, i - 1), Neighbour(s, i + 1));
    XorCancels(Neighbour(s, i - 1), NULL);
    XorCancels(Neighbour(s, i + 1), NULL);
    hide Xor;
    if i + 1 < |s| { assert LinkedAt(m, s, i + 1); }
  }

  lemma EndsTraversal(s: seq<Addr>, i: nat)
    requires LooksLikeEnd(s, i)
    ensures i + 1 < |s|
  {}

  /**
  The traversal from one end. It goes through the chain in order, and through all of it if and only if no inner node
  stores its own address.
   */
  method Traverse(m: map<Addr, Cell>, start: Addr, ghost s: seq<Addr>) returns (visited: seq<Addr>)
    requires Linked(m, s) && start == Neighbour(s, 0)
    ensures visited <= s && (s != [] ==> visited != [])
    ensures visited == s <==> forall i :: 0 <= i < |s| ==> !LooksLikeEnd(s, i)
    ensures visited != s ==> LooksLikeEnd(s, |visited| - 1)
  {
    hide *;
    LinkedAllocated(m, s);
    visited := [];
    var prev, cur := start, start;
    while cur != NULL
      invariant |visited| <= |s| && visited == s[..|visited|]
      invariant cur == Neighbour(s, |visited|)
      invariant prev == if |visited| == 0 then start else s[|visited| - 1]
      invariant forall i :: 0 <= i < |visited| ==> !LooksLikeEnd(s, i)
      decreases |s| - |visited|
    {
      ghost var i := |visited|;
      NeighbourIs(s, i);
      OneNodeOn(m, s, i, prev);
      visited := visited + [cur];
      assert visited == s[..i + 1];
      if m[cur].link == cur {
        EndsTraversal(s, i);
        return;
      }
      if cur == prev {
        cur := m[cur].link;
      } else {
        var save := cur;
        cur := Xor(prev, m[cur].link);
        prev := save;
      }
    }
    NeighbourIs(s, |visited|);
    assert s[..|s|] == s;
  }

  /** Three nodes at 0x10, 0x30 and 0x20: the traversal stops at the second. */
  lemma TraversalStopsEarly()
    ensures exists m :: Linked(m, [0x10, 0x30, 0x20])
    ensures LooksLikeEnd([0x10, 0x30, 0x20], 1)
  {
    var a, b, c := 0x10, 0x30, 0x20;
    assert Xor(1, 2) == 3 && Xor(2, 4) == 6 && Xor(4, 8) == 12 && Xor(8, 16) == 24 && Xor(a, c) == b;
    var s, m := [a, b, c], map[a := Cell(b, a), b := Cell(b, b), c := Cell(b, c)];
    assert LinkedAt(m, s, 0) && LinkedAt(m, s, 1) && LinkedAt(m, s, 2);
    assert Linked(m, s);
  }

  predicate HasBit(a: Addr, k: nat) {
    if k == 0 then a % 2 == 1 else HasBit(a / 2, k - 1)
  }

  lemma {:induction false} XorBit(a: Addr, b: Addr, k: nat)
    ensures HasBit(Xor(a, b), k) <==> HasBit(a, k) != HasBit(b, k)
  {
    XorStep(a, b);
    if k > 0 { XorBit(a / 2, b / 2, k - 1); }
  }

  /** Where all addresses share a set bit, as those in one half of the address space do, the traversal is complete. */
  lemma SharedBitNeverEnds(s: seq<Addr>, k: nat)
    requires forall i :: 0 <= i < |s| ==> HasBit(s[i], k)
    ensures forall i :: 0 <= i < |s| ==> !LooksLikeEnd(s, i)
  {
    forall i | 0 <= i < |s| ensures !LooksLikeEnd(s, i) {
      if 0 < i < |s| - 1 {
        XorBit(s[i - 1], s[i + 1], k);
      }
    }
  }

  // ---- the queue

  class Queue {
    const id: int
    var front: Addr
    var back: Addr
    ghost var nodes: seq<Addr>

    ghost predicate Valid(m: map<Addr, Cell>)
      reads this
    {
      Linked(m, nodes) && Ends()
    }

    ghost predicate Ends()
      reads this
    {
      front == Neighbour(nodes, 0) && back == Neighbour(nodes, |nodes| - 1)
    }

    /** The queued values, oldest first. */
    ghost function Contents(m: map<Addr, Cell>): seq<Addr>
      requires Valid(m)
      reads this
    {
      LinkedAllocated(m, nodes);
      Values(m, nodes)
    }

    constructor (id: int)
      ensures this.id == id && nodes == [] && Ends()
    {
      this.id, front, back, nodes := id, NULL, NULL, [];
    }

    method Enqueue(mem: Memory, node: Addr, o: Addr)
      requires Valid(mem.cells) && node != NULL && node !in mem.cells
      modifies this, mem
      ensures Valid(mem.cells) && Contents(mem.cells) == old(Contents(mem.cells)) + [o]
      ensures nodes == old(nodes) + [node] && mem.cells.Keys == old(mem.cells.Keys) + {node}
      ensures forall a :: a in old(mem.cells) && a !in old(nodes) ==> mem.cells[a] == old(mem.cells[a])
    {
      hide Xor, Linked, Values;
      LinkedAllocated(mem.cells, nodes);
      XorCancels(node, NULL);
      if nodes != [] { BackLinks(mem.cells, nodes); }
      if front == NULL {
        front := NewNode(mem, NULL, NULL, o, node);
        back := front;
      } else {
        back := NewNode(mem, if back != NULL then mem.cells[back].link else NULL, back, o, node);
      }
      LinkedAppend(old(mem.cells), mem.cells, nodes, node);
      nodes := nodes + [node];
    }

    method Dequeue(mem: Memory) returns (ok: bool, o: Addr)
      requires Valid(mem.cells)
      modifies this, mem
      ensures Valid(mem.cells) && ok == (old(nodes) != [])
      ensures old(Contents(mem.cells)) == if ok then [o] + Contents(mem.cells) else []
      ensures nodes == if ok then old(nodes)[1..] else []
      ensures mem.cells.Keys == old(mem.cells.Keys)
      ensures forall a :: a in old(mem.cells) && a !in old(nodes) ==> mem.cells[a] == old(mem.cells[a])
    {
      ok, o := false, NULL;
      LinkedAllocated(mem.cells, nodes);
      if front == NULL {
        return;
      }
      FrontLinks(mem.cells, nodes);
      ghost var was := Contents(mem.cells);
      hide Xor, Linked;
      var qo := front;
      ok, o := true, mem.cells[qo].data;
      var cur := mem.cells[qo].link;
      front := cur;
      if cur == NULL {
        back := NULL;
      } else {
        var prev := Xor(mem.cells[cur].link, qo);
        mem.cells := mem.cells[cur := mem.cells[cur].(link := prev)];
      }
      LinkedTail(old(mem.cells), mem.cells, nodes);
      nodes := nodes[1..];
      assert was == [was[0]] + was[1..];
    }
  }

  /** Fills in a new node and links it behind cur, whose neighbour on the other side is prev. */
  method NewNode(mem: Memory, prev: Addr, cur: Addr, data: Addr, next: Addr) returns (r: Addr)
    requires next != cur && (cur != NULL ==> cur in mem.cells)
    modifies mem
    ensures r == next && next in mem.cells && mem.cells[next] == Cell(cur, data)
    ensures mem.cells.Keys == old(mem.cells.Keys) + {next}
    ensures cur != NULL ==> mem.cells[cur] == Cell(Xor(prev, next), old(mem.cells[cur].data))
    ensures forall a :: a in old(mem.cells) && a != next && (a == cur ==> cur == NULL) ==>
      mem.cells[a] == old(mem.cells[a])
  {
    XorCancels(next, NULL);
    hide Xor;
    mem.cells := mem.cells[next := Cell(cur, data)];
    if cur == NULL {
      return next;
    } else if prev == NULL {
      mem.cells := mem.cells[cur := mem.cells[cur].(link := next)];
      mem.cells := mem.cells[next := mem.cells[next].(link := cur)];
    } else {
      mem.cells := mem.cells[cur := mem.cells[cur].(link := Xor(prev, next))];
    }
    r := next;
  }
}
