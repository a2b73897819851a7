/**
A priority queue: queues under their priorities in an AVL tree, and a pointer to the highest.

In contracts `P(..) == true` means P(..): compared with `true`, a predicate is passed on as a whole instead of being
taken apart at every call.
 */
module PriorityQueues {
  import opened AvlIndex
  import opened AvlShape
  import opened AvlSteps
  import opened AvlTrees
  import opened XorQueues

  /** What a priority queue holds: for every priority that has a queue, the values in it, oldest first. */
  type Levels = map<int, seq<Addr>>

  ghost predicate IsTop(ls: Levels, p: int) {
    p in ls && forall k :: k in ls ==> k <= p
  }

  /** One pull, from ls to ls': code 0 with a value, or a failure. */
  ghost predicate Pulled(ls: Levels, code: int, o: Addr, ls': Levels) {
    if ls == map[] then code == -1 && ls' == ls
    else
      exists p ::
        && IsTop(ls, p)
        && if ls[p] != [] then Served(ls, p, code, o, ls') else PulledNext(ls - {p}, code, o, ls')
  }

  /** The second try, after the highest queue was found empty and removed. */
  ghost predicate PulledNext(ls: Levels, code: int, o: Addr, ls': Levels) {
    if ls == map[] then code == -2 && ls' == ls
    else
      exists p ::
        && IsTop(ls, p)
        && if ls[p] != [] then Served(ls, p, code, o, ls') else code == -1 && ls' == ls
  }

  ghost predicate Served(ls: Levels, p: int, code: int, o: Addr, ls': Levels)
    requires p in ls && ls[p] != []
  {
    code == 0 && o == ls[p][0] && ls' == ls[p := ls[p][1..]]
  }

  lemma PulledNothing(ls: Levels, o: Addr)
    requires ls == map[]
    ensures Pulled(ls, -1, o, ls)
  {}

  /** The two ways a pull goes on from the highest queue. */
  lemma PulledTop(ls: Levels, p: int, code: int, o: Addr, ls': Levels)
    requires IsTop(ls, p) && p in ls
    requires if ls[p] != [] then Served(ls, p, code, o, ls') else PulledNext(ls - {p}, code, o, ls') == true
    ensures Pulled(ls, code, o, ls')
  {
    hide PulledNext, Served;
  }

  lemma NoneNext(ls: Levels, o: Addr)
    requires ls == map[]
    ensures PulledNext(ls, -2, o, ls)
  {}

  lemma NextTop(ls: Levels, p: int, code: int, o: Addr, ls': Levels)
    requires IsTop(ls, p) && p in ls
    requires if ls[p] != [] then Served(ls, p, code, o, ls') else code == -1 && ls' == ls
    ensures PulledNext(ls, code, o, ls')
  {
    hide Served;
  }

  ghost predicate HighestUsed(ls: Levels, p: int) {
    p in ls && ls[p] != [] && forall k :: k in ls && ls[k] != [] ==> k <= p
  }

  /** A pull that succeeds takes the oldest value of the highest priority that has any. */
  lemma PullServesHighest(ls: Levels, o: Addr, ls': Levels)
    requires Pulled(ls, 0, o, ls')
    ensures exists p :: HighestUsed(ls, p) && o == ls[p][0] && p in ls' && ls'[p] == ls[p][1..]
    ensures forall k :: k in ls && ls[k] != [] && !HighestUsed(ls, k) ==> k in ls' && ls'[k] == ls[k]
  {
    var p :| IsTop(ls, p) && if ls[p] != [] then Served(ls, p, 0, o, ls') else true;
    if ls[p] != [] {
      assert HighestUsed(ls, p);
    } else {
      var rest := ls - {p};
      var q :| IsTop(rest, q) && rest[q] != [] && Served(rest, q, 0, o, ls');
      assert forall k :: k in ls && ls[k] != [] ==> k in rest;
      assert HighestUsed(ls, q);
    }
  }

  /** A pull that fails removes the queue of the highest priority, which was empty, unless there was none at all. */
  lemma FailedPullRemoves(ls: Levels, code: int, o: Addr, ls': Levels)
    requires Pulled(ls, code, o, ls') && code != 0
    ensures ls == map[] ==> ls' == ls
    ensures ls != map[] ==> exists p :: IsTop(ls, p) && ls[p] == [] && ls' == ls - {p}
  {}

  ghost predicate FailedStep(ls: Levels, ls': Levels) {
    exists code, o :: code != 0 && Pulled(ls, code, o, ls')
  }

  ghost function Above(ls: Levels, p: int): set<int> {
    set k | k in ls && k > p
  }

  /**
  While a queue with a value in it exists, pulls fail at most as often in a row as there are queues of higher
  priority, and the value stays.
   */
  lemma {:induction false} FailuresBounded(run: seq<Levels>, p: int)
    requires run != [] && (forall i :: 0 < i < |run| ==> FailedStep(run[i - 1], run[i]))
    requires p in run[0] && run[0][p] != []
    ensures |run| - 1 <= |Above(run[0], p)|
    ensures var last := run[|run| - 1]; p in last && last[p] == run[0][p]
  {
    if |run| > 1 {
      var tail := run[1..];
      assert FailedStep(run[0], run[1]);
      FailureCounts(run[0], run[1], p);
      FailuresBounded(tail, p);
    }
  }

  lemma FailureCounts(ls: Levels, ls': Levels, p: int)
    requires FailedStep(ls, ls') && p in ls && ls[p] != []
    ensures p in ls' && ls'[p] == ls[p] && |Above(ls', p)| == |Above(ls, p)| - 1
  {
    hide FailedStep;
    var q := FailedStepRemoves(ls, ls', p);
    var above := Above(ls, p);
    assert q in above;
    assert Above(ls', p) == above - {q};
  }

  lemma FailedStepRemoves(ls: Levels, ls': Levels, p: int) returns (q: int)
    requires FailedStep(ls, ls') && p in ls && ls[p] != []
    ensures q in ls && q > p && ls' == ls - {q}
  {
    hide Pulled;
    var code, o :| code != 0 && Pulled(ls, code, o, ls');
    FailedPullRemoves(ls, code, o, ls');
    q :| IsTop(ls, q) && ls[q] == [] && ls' == ls - {q};
  }

  ghost predicate IsHighest(h: Queue?, queues: map<int, Queue>) {
    if queues == map[] then h == null
    else h != null && h.id in queues && queues[h.id] == h && forall k :: k in queues ==> k <= h.id
  }

  lemma HighestRaised(h: Queue?, queues: map<int, Queue>, q: Queue)
    requires IsHighest(h, queues) && q.id !in queues
    ensures IsHighest(if h == null || q.id > h.id then q else h, queues[q.id := q])
  {
    assert q.id in queues[q.id := q];
  }

  // ---- the chains of all queues

  ghost predicate Disjoint(s: seq<Addr>, t: seq<Addr>) {
    forall a :: a in s ==> a !in t
  }

  ghost predicate Unshared(m: map<Addr, Cell>, chains: map<int, seq<Addr>>) {
    && (forall k :: k in chains ==> Linked(m, chains[k]))
    && (forall j, k :: j in chains && k in chains && j != k ==> Disjoint(chains[j], chains[k]))
  }

  ghost function ValuesOf(m: map<Addr, Cell>, chain: seq<Addr>): seq<Addr>
    requires Linked(m, chain)
  {
    LinkedAllocated(m, chain);
    Values(m, chain)
  }

  ghost function ListsOf(m: map<Addr, Cell>, chains: map<int, seq<Addr>>): Levels
    requires Unshared(m, chains)
  {
    map k | k in chains :: ValuesOf(m, chains[k])
  }

  /** Only the chain of priority p has changed; a new node comes from nowhere. */
  lemma OneChainChanged(m: map<Addr, Cell>, m': map<Addr, Cell>, chains: map<int, seq<Addr>>, p: int, chain: seq<Addr>)
    requires Unshared(m, chains) && p in chains && Linked(m', chain) && m.Keys <= m'.Keys
    requires forall a :: a in chain ==> a in chains[p] || a !in m
    requires forall a :: a in m && a !in chains[p] ==> m'[a] == m[a]
    ensures Unshared(m', chains[p := chain])
    ensures ListsOf(m', chains[p := chain]) == ListsOf(m, chains)[p := ValuesOf(m', chain)]
  {
    var chains' := chains[p := chain];
    forall k | k in chains && k != p
      ensures Linked(m', chains[k]) && ValuesOf(m', chains[k]) == ValuesOf(m, chains[k])
      ensures Disjoint(chain, chains[k]) && Disjoint(chains[k], chain)
    {
      LinkedAllocated(m, chains[k]);
      assert Disjoint(chains[p], chains[k]) && Disjoint(chains[k], chains[p]);
      LinkedFrame(m, m', chains[k]);
    }
    hide Linked, ValuesOf;
  }

  /** The queue of priority p, taken out of what is known of all queues. */
  lemma OneLinked(m: map<Addr, Cell>, chains: map<int, seq<Addr>>, p: int, q: Queue)
    requires Unshared(m, chains) && p in chains && Holds(q, p, chains[p])
    ensures q.Valid(m) && q.Contents(m) == ValuesOf(m, chains[p])
    ensures p in ListsOf(m, chains) && ListsOf(m, chains)[p] == ValuesOf(m, chains[p])
  {}

  lemma Enqueued(m: map<Addr, Cell>, m': map<Addr, Cell>, chains: map<int, seq<Addr>>, p: int, chain: seq<Addr>,
                 node: Addr, data: Addr)
    requires Unshared(m, chains) && p in chains && node !in m && m'.Keys == m.Keys + {node}
    requires Linked(m', chain) && chain == chains[p] + [node]
    requires ValuesOf(m', chain) == ValuesOf(m, chains[p]) + [data]
    requires forall a :: a in m && a !in chains[p] ==> m'[a] == m[a]
    ensures Unshared(m', chains[p := chain]) && p in ListsOf(m, chains)
    ensures ListsOf(m', chains[p := chain]) == ListsOf(m, chains)[p := ListsOf(m, chains)[p] + [data]]
  {
    assert ListsOf(m, chains)[p] == ValuesOf(m, chains[p]);
    hide Linked, Values, ListsOf, Unshared, ValuesOf;
    OneChainChanged(m, m', chains, p, chain);
  }

  lemma Dequeued(m: map<Addr, Cell>, m': map<Addr, Cell>, chains: map<int, seq<Addr>>, p: int, chain: seq<Addr>,
                 ok: bool, o: Addr)
    requires Unshared(m, chains) && p in chains && m'.Keys == m.Keys && ok == (chains[p] != [])
    requires Linked(m', chain) && chain == if ok then chains[p][1..] else []
    requires ValuesOf(m, chains[p]) == if ok then [o] + ValuesOf(m', chain) else []
    requires forall a :: a in m && a !in chains[p] ==> m'[a] == m[a]
    ensures Unshared(m', chains[p := chain]) && p in ListsOf(m, chains)
    ensures ok == (ListsOf(m, chains)[p] != [])
    ensures if ok then Served(ListsOf(m, chains), p, 0, o, ListsOf(m', chains[p := chain]))
            else ListsOf(m', chains[p := chain]) == ListsOf(m, chains)
  {
    var was, now := ValuesOf(m, chains[p]), ValuesOf(m', chain);
    assert ListsOf(m, chains)[p] == was && (ok ==> was[1..] == now);
    assert !ok ==> now == was == [];
    hide Linked, Values, ListsOf, Unshared, ValuesOf;
    OneChainChanged(m, m', chains, p, chain);
    assert ListsOf(m, chains)[p := was] == ListsOf(m, chains);
  }

  /** What a queue contains, as values of its chain. */
  lemma ContentsOf(m: map<Addr, Cell>, q: Queue)
    requires q.Valid(m)
    ensures Linked(m, q.nodes) && q.Contents(m) == ValuesOf(m, q.nodes) && q.Ends()
  {}

  ghost predicate Holds(q: Queue, k: int, chain: seq<Addr>)
    reads q
  {
    q.id == k && q.nodes == chain && q.Ends()
  }

  /** The queues have the chains that are given for them. */
  ghost predicate AllHold(queues: map<int, Queue>, chains: map<int, seq<Addr>>)
    reads queues.Values
  {
    queues.Keys == chains.Keys && forall k :: k in queues ==> Holds(queues[k], k, chains[k])
  }

  lemma OneHolds(queues: map<int, Queue>, chains: map<int, seq<Addr>>, p: int)
    requires AllHold(queues, chains) && p in queues
    ensures p in chains && Holds(queues[p], p, chains[p])
    ensures forall k :: k in queues && k != p ==> queues[k] != queues[p]
  {}

  lemma OneMoreHolds(queues: map<int, Queue>, chains: map<int, seq<Addr>>, p: int, q: Queue)
    requires AllHold(queues, chains) && p !in queues && Holds(q, p, [])
    ensures p !in chains && AllHold(queues[p := q], chains[p := []])
  {}

  class PriorityQueue {
    const mem: Memory
    const tree: AvlTree
    var highest: Queue?
    ghost var queues: map<int, Queue>
    ghost var chains: map<int, seq<Addr>>

    /** The tree holds one node for every queue, under its priority. */
    ghost predicate Indexed()
      reads this`queues, tree
    {
      Files(tree.Contents(), queues)
    }

    /** Every queue is a chain of its own. */
    ghost predicate Chained()
      reads this`queues, this`chains, mem, queues.Values
    {
      Unshared(mem.cells, chains) && AllHold(queues, chains)
    }

    /** highest is the queue of the largest priority in the tree, if there is any. */
    ghost predicate TopKnown()
      reads this`queues, this`highest
    {
      IsHighest(highest, queues)
    }

    ghost predicate Valid()
      reads this, tree, Nodes(tree.tree), mem, queues.Values
    {
      tree.Valid() && Indexed() && Chained() && TopKnown()
    }

    ghost function Lists(): Levels
      requires Chained()
      reads this`queues, this`chains, mem, queues.Values
    {
      ListsOf(mem.cells, chains)
    }

    /**
    Nothing is written to highest: it keeps what the block it lies in happened to hold. The queue is good from the
    start exactly if that is null.
     */
    constructor (mem: Memory, stale: Queue?)
      ensures Valid() <==> stale == null
      ensures Chained() && Lists() == map[] && this.mem == mem && highest == stale && fresh(tree)
    {
      this.mem, highest, queues, chains := mem, stale, map[], map[];
      tree := new AvlTree();
    }

    /** Adds data to the queue of the given priority; the node is the one the allocator hands out. */
    method Insert(priority: int, data: Addr, node: Addr) returns (code: int)
      requires Valid() && node != NULL && node !in mem.cells
      modifies this, tree, Nodes(tree.tree), mem, queues.Values
      ensures Valid()
      ensures code == if priority == 0 && 0 !in old(Lists()) then -1 else 0
      ensures var was := old(Lists());
        Lists() == if code < 0 then was
                   else was[priority := (if priority in was then was[priority] else []) + [data]]
    {
      hide AvlTree.Valid, AvlTree.Contents, Nodes, Unshared, ListsOf, Files, IsHighest, Holds;
      var q := FindOrMake(priority);
      TreeAllocated(tree.tree);
      if q == null {
        return -1;
      }
      EnqueueIn(q, data, node);
      code := 0;
    }

    /** The queue of a priority; where there is none it is made, unless the priority is 0. */
    method FindOrMake(priority: int) returns (q: Queue?)
      requires tree.Valid() == true && Indexed() == true && Chained() == true && TopKnown() == true
      modifies this, tree, Nodes(tree.tree)
      ensures tree.Valid() == true && Indexed() == true && Chained() == true && TopKnown() == true
      ensures q == null <==> priority == 0 && 0 !in old(Lists())
      ensures q == null ==> queues == old(queues)
      ensures q != null ==> q.id == priority && priority in queues && queues[priority] == q
      ensures q != null ==> (q in old(queues.Values) || fresh(q))
      ensures Lists() == if q == null || priority in old(Lists()) then old(Lists()) else old(Lists())[priority := []]
    {
      hide AvlTree.Valid, AvlTree.Contents, Nodes, Unshared, ListsOf, IsHighest;
      ListsKeys(mem.cells, chains);
      TreeAllocated(tree.tree);
      var n;
      ghost var steps;
      n, steps := tree.Find(priority);
      if n == null {
        hide Holds, Files;
        if priority == 0 { return null; }
        ghost var others := queues;
        var made := NewQueue(priority);
        FileQueue(made, others);
        q := made;
      } else {
        q := n.data as Queue;
        assert Holds(q, priority, chains[priority]);
      }
    }

    /** An empty queue for a priority that has none, not filed in the tree yet. */
    method NewQueue(priority: int) returns (q: Queue)
      requires Chained() == true && TopKnown() == true && priority !in queues
      modifies this
      ensures Chained() == true && TopKnown() == true
      ensures queues == old(queues)[priority := q] && fresh(q) && q.id == priority
      ensures Lists() == old(Lists())[priority := []]
    {
      hide Linked, Values, Unshared, ListsOf, IsHighest, AllHold;
      q := new Queue(priority);
      HighestRaised(highest, queues, q);
      if highest == null || q.id > highest.id {
        highest := q;
      }
      OneMoreHolds(queues, chains, priority, q);
      NoChain(mem.cells, chains, priority);
      queues, chains := queues[priority := q], chains[priority := []];
    }

    method FileQueue(q: Queue, ghost others: map<int, Queue>)
      requires tree.Valid() == true && Files(tree.Contents(), others) && q.id !in others && queues == others[q.id := q]
      modifies tree, Nodes(tree.tree)
      ensures tree.Valid() == true && Indexed() == true
    {
      TreeAllocated(tree.tree);
      hide AvlTree.Valid, AvlTree.Contents, Nodes, Files, Inserted;
      var leaf := new Node(q.id, q);
      FilesInserted(tree.Contents(), others, leaf, q);
      var ok := tree.Add(leaf);
    }

    method EnqueueIn(q: Queue, data: Addr, node: Addr)
      requires Chained() == true && node != NULL && node !in mem.cells && q.id in queues && queues[q.id] == q
      modifies mem, q, this`chains
      ensures Chained() == true
      ensures Lists() == old(Lists())[q.id := old(Lists())[q.id] + [data]]
    {
      hide Linked, Values, ListsOf, Unshared, ValuesOf, Queue.Valid, Queue.Contents, Queue.Ends;
      OneHolds(queues, chains, q.id);
      OneLinked(mem.cells, chains, q.id, q);
      q.Enqueue(mem, node, data);
      ContentsOf(mem.cells, q);
      Enqueued(old(mem.cells), mem.cells, chains, q.id, q.nodes, node, data);
      chains := chains[q.id := q.nodes];
    }

    /** The oldest value of the highest queue; if that queue is empty it is removed and the next highest is tried. */
    method PullHighest() returns (code: int, o: Addr)
      requires Valid() == true
      modifies this, tree, Nodes(tree.tree), mem, queues.Values
      ensures Valid() == true && Pulled(old(Lists()), code, o, Lists()) == true
    {
      hide AvlTree.Valid, AvlTree.Contents, Nodes, Unshared, ListsOf, Files, IsHighest, Holds, AllHold, Pulled,
        PulledNext, Served, IsTop;
      TreeAllocated(tree.tree);
      ghost var ls := Lists();
      TopOfLists(mem.cells, chains, highest, queues, ls);
      code, o := -1, NULL;
      if highest == null {
        PulledNothing(ls, o);
        return;
      }
      ghost var top := highest.id;
      var ok;
      ok, o := DequeueFrom(highest);
      if ok {
        PulledTop(ls, top, 0, o, Lists());
        return 0, o;
      }
      code, o := PullNext();
      PulledTop(ls, top, code, o, Lists());
    }

    /** The highest queue is empty: remove it and try the next highest. */
    method PullNext() returns (code: int, o: Addr)
      requires tree.Valid() == true && Indexed() == true && Chained() == true && TopKnown() == true && highest != null
      requires highest.id in Lists() && Lists()[highest.id] == []
      modifies this, tree, Nodes(tree.tree), mem, queues.Values
      ensures tree.Valid() == true && Indexed() == true && Chained() == true && TopKnown() == true
      ensures PulledNext(old(Lists()) - {old(highest).id}, code, o, Lists()) == true
    {
      hide AvlTree.Valid, AvlTree.Contents, Nodes, Unshared, ListsOf, Files, IsHighest, Holds, AllHold, PulledNext,
        Served, IsTop;
      RemoveHighest();
      TreeAllocated(tree.tree);
      ghost var ls := Lists();
      TopOfLists(mem.cells, chains, highest, queues, ls);
      code, o := -2, NULL;
      if highest == null {
        NoneNext(ls, o);
      } else {
        ghost var top := highest.id;
        var ok;
        ok, o := DequeueFrom(highest);
        code := if ok then 0 else -1;
        NextTop(ls, top, code, o, Lists());
      }
    }

    method DequeueFrom(q: Queue) returns (ok: bool, o: Addr)
      requires Chained() == true && q.id in queues && queues[q.id] == q
      modifies mem, q, this`chains
      ensures Chained() == true && q.id in old(Lists())
      ensures ok == (old(Lists())[q.id] != [])
      ensures if ok then Served(old(Lists()), q.id, 0, o, Lists()) else Lists() == old(Lists())
    {
      hide Linked, Values, ListsOf, Unshared, ValuesOf, Served, Queue.Valid, Queue.Contents, Queue.Ends;
      OneHolds(queues, chains, q.id);
      OneLinked(mem.cells, chains, q.id, q);
      ok, o := q.Dequeue(mem);
      ContentsOf(mem.cells, q);
      Dequeued(old(mem.cells), mem.cells, chains, q.id, q.nodes, ok, o);
      chains := chains[q.id := q.nodes];
    }

    /** Deletes the empty highest queue from the tree and looks up the next highest. */
    method RemoveHighest()
      requires tree.Valid() == true && Indexed() == true && Chained() == true && TopKnown() == true && highest != null
      requires highest.id in Lists() && Lists()[highest.id] == []
      modifies this, tree, Nodes(tree.tree)
      ensures tree.Valid() == true && Indexed() == true && Chained() == true && TopKnown() == true
      ensures Lists() == old(Lists()) - {old(highest.id)} && queues == old(queues) - {old(highest.id)}
    {
      hide AvlTree.Valid, AvlTree.Contents, Nodes, Unshared, ListsOf, Files, Holds;
      TreeAllocated(tree.tree);
      ghost var others := queues - {highest.id};
      Unfile(highest.id);
      TreeAllocated(tree.tree);
      DropHighest();
      FindHighest();
    }

    method DropHighest()
      requires Chained() == true && highest != null
      modifies this
      ensures Chained() == true && highest == null && queues == old(queues) - {old(highest).id}
      ensures Lists() == old(Lists()) - {old(highest).id}
    {
      hide Unshared, ListsOf, Holds;
      WithoutChain(mem.cells, chains, highest.id);
      queues, chains := queues - {highest.id}, chains - {highest.id};
      highest := null;
    }

    method Unfile(id: int)
      requires tree.Valid() == true && Indexed() == true && id in queues
      modifies tree, Nodes(tree.tree)
      ensures tree.Valid() == true && Files(tree.Contents(), queues - {id})
    {
      TreeAllocated(tree.tree);
      ghost var was := tree.Contents();
      assert Ordered(was) && exists n :: n in was && n.key == id;
      hide AvlTree.Valid, AvlTree.Contents, Nodes, Removed;
      var ok := tree.DeleteKey(id);
      ghost var n :| n in was && n.key == id && tree.Contents() == Removed(was, n);
      FilesRemoved(was, queues, n);
    }

    /** highest becomes the queue filed under the largest priority. */
    method FindHighest()
      requires tree.Valid() == true && Indexed() == true && Chained() == true && highest == null
      modifies this`highest
      ensures TopKnown() == true
    {
      hide AvlTree.Valid, AvlTree.Contents, Nodes, Files, IsHighest;
      var n := tree.GetMax();
      HighestFiled(tree.Contents(), queues, n);
      highest := if n == null then null else n.data as Queue;
    }
  }

  lemma HighestFiled(s: seq<Node>, queues: map<int, Queue>, n: Node?)
    requires Files(s, queues) && forall k :: k in queues ==> queues[k].id == k
    requires if n == null then s == [] else n in s && forall m :: m in s ==> m.key <= n.key
    ensures if n == null then IsHighest(null, queues)
            else n.key in queues && n.data == queues[n.key] && IsHighest(queues[n.key], queues)
  {
    if n == null {
      assert forall k :: k !in queues;
      assert queues == map[];
    }
  }

  /** The highest queue is the one the lists say. */
  lemma TopOfLists(m: map<Addr, Cell>, chains: map<int, seq<Addr>>, h: Queue?, queues: map<int, Queue>, ls: Levels)
    requires Unshared(m, chains) && AllHold(queues, chains) && IsHighest(h, queues) && ls == ListsOf(m, chains)
    ensures if h == null then ls == map[]
            else IsTop(ls, h.id) && h.id in ls && h.id in queues && queues[h.id] == h && ls != map[]
  {
    if queues == map[] {
      assert chains.Keys == {};
      assert chains == map[];
    } else {
      assert h.id in ls;
    }
  }

  lemma WithoutChain(m: map<Addr, Cell>, chains: map<int, seq<Addr>>, p: int)
    requires Unshared(m, chains)
    ensures Unshared(m, chains - {p}) && ListsOf(m, chains - {p}) == ListsOf(m, chains) - {p}
  {}

  lemma ListsKeys(m: map<Addr, Cell>, chains: map<int, seq<Addr>>)
    requires Unshared(m, chains)
    ensures ListsOf(m, chains).Keys == chains.Keys
  {}

  lemma NoChain(m: map<Addr, Cell>, chains: map<int, seq<Addr>>, p: int)
    requires Unshared(m, chains) && p !in chains
    ensures Unshared(m, chains[p := []]) && ListsOf(m, chains[p := []]) == ListsOf(m, chains)[p := []]
  {
    assert Values(m, []) == [];
    hide Values;
  }
}
