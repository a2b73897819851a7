/**
The shared-memory allocator: regions from which blocks are carved in order, and one list of freed blocks per size. The
lists are linked through the freed blocks, filed by size in an AVL tree, and the tree and the list heads live in blocks
of the same allocator. A pointer is a region and an offset, so that regions never overlap.

In contracts `P(..) == true` means P(..): compared with `true`, a predicate is passed on as a whole instead of being
taken apart at every call.
 */
module SharedMemory {
  import opened AvlIndex
  import opened AvlShape
  import opened AvlSteps
  import opened AvlTrees
  import opened Sequences

  const REGION_SIZE: nat := 1024 * 1024

  /** The sizes in bytes of a link in a freed block, a list head, a tree node and a tree. */
  const LINK_SIZE: nat := 8
  const GROUP_SIZE: nat := 24
  const NODE_SIZE: nat := 48
  const TREE_SIZE: nat := 24

  class Region {
    const id: nat
    const size: nat
    var off: nat
    var next: Region?

    constructor (id: nat, size: nat)
      ensures this.id == id && this.size == size && off == 0 && next == null
    {
      this.id, this.size, off, next := id, size, 0, null;
    }
  }

  datatype Ptr = Null | Place(region: Region, off: nat)

  /** Who may use a block: the program, the allocator itself, or nobody until it is handed out again. */
  datatype Owner = User | Allocator | OnList

  // ---- the state as a value

  /**
  Every block ever carved with its size and owner, how far each region is used, the links stored in memory, and for
  each size the first freed block and all freed blocks.
   */
  datatype Store = Store(carved: map<Ptr, nat>, owner: map<Ptr, Owner>, offs: map<Region, nat>,
                         links: map<Ptr, Ptr>, tops: map<nat, Ptr>, lists: map<nat, seq<Ptr>>)

  predicate Clear(p: Ptr, n: nat, q: Ptr, m: nat) {
    p.Place? && q.Place? && p.region == q.region ==> p.off + n <= q.off || q.off + m <= p.off
  }

  /** The block of n bytes at p holds byte b of region r. */
  predicate Covers(p: Ptr, n: nat, r: Region, b: nat) {
    p.Place? && p.region == r && p.off <= b < p.off + n
  }

  /** The blocks lie apart, within the used part of the regions. */
  ghost predicate BlocksApart(carved: map<Ptr, nat>, offs: map<Region, nat>) {
    && (forall p :: p in carved ==>
          p.Place? && carved[p] >= LINK_SIZE && p.region in offs && p.off + carved[p] <= offs[p.region])
    && (forall p, q :: p in carved && q in carved && p != q ==> Clear(p, carved[p], q, carved[q]))
  }

  ghost predicate InSomeBlock(carved: map<Ptr, nat>, r: Region, b: nat) {
    exists p :: p in carved && Covers(p, carved[p], r, b)
  }

  /** No used byte is outside all blocks. */
  ghost predicate NothingLost(carved: map<Ptr, nat>, offs: map<Region, nat>) {
    forall r, b :: r in offs && 0 <= b < offs[r] ==> InSomeBlock(carved, r, b)
  }

  /** The blocks on no one's hands are those on the list of their size, once each. */
  ghost predicate Filed(carved: map<Ptr, nat>, owner: map<Ptr, Owner>, lists: map<nat, seq<Ptr>>) {
    && owner.Keys == carved.Keys
    && (forall p :: p in carved ==> (owner[p] == OnList <==> carved[p] in lists && p in lists[carved[p]]))
    && (forall s, p :: s in lists && p in lists[s] ==> p in carved && carved[p] == s)
    && (forall s :: s in lists ==> s >= LINK_SIZE && Distinct(lists[s]))
  }

  /** In memory, list is linked from top. */
  ghost predicate LinkedFrom(links: map<Ptr, Ptr>, top: Ptr, list: seq<Ptr>)
    decreases list
  {
    if list == [] then top == Null
    else top == list[0] && top in links && LinkedFrom(links, links[top], list[1..])
  }

  ghost predicate AllLinked(links: map<Ptr, Ptr>, tops: map<nat, Ptr>, lists: map<nat, seq<Ptr>>) {
    tops.Keys == lists.Keys && forall s :: s in lists ==> LinkedFrom(links, tops[s], lists[s])
  }

  ghost predicate Sound(st: Store) {
    && BlocksApart(st.carved, st.offs) && NothingLost(st.carved, st.offs)
    && Filed(st.carved, st.owner, st.lists) && AllLinked(st.links, st.tops, st.lists)
  }

  /** Every block is inside its region. */
  ghost predicate Contained(st: Store) {
    forall r :: r in st.offs ==> st.offs[r] <= r.size
  }

  lemma {:induction false} LinksElsewhere(links: map<Ptr, Ptr>, links': map<Ptr, Ptr>, top: Ptr, list: seq<Ptr>)
    requires LinkedFrom(links, top, list)
    requires forall p :: p in list && p in links ==> p in links' && links'[p] == links[p]
    ensures LinkedFrom(links', top, list)
    decreases list
  {
    if list != [] { LinksElsewhere(links, links', links[top], list[1..]); }
  }

  // ---- what the operations do to the state

  ghost function WithRegion(st: Store, r: Region): Store {
    st.(offs := st.offs[r := 0])
  }

  lemma RegionSound(st: Store, r: Region)
    requires Sound(st) && r !in st.offs
    ensures Sound(WithRegion(st, r)) && (Contained(WithRegion(st, r)) <==> Contained(st))
  {
    hide Filed, AllLinked, Clear, InSomeBlock;
    var offs := WithRegion(st, r).offs;
    assert forall x :: x in st.offs ==> offs[x] == st.offs[x];
    assert BlocksApart(st.carved, offs) && NothingLost(st.carved, offs);
  }

  /** The next size bytes of region r become a block. */
  ghost function WithBlock(st: Store, r: Region, size: nat, who: Owner): Store
    requires r in st.offs
  {
    var p := Place(r, st.offs[r]);
    st.(carved := st.carved[p := size], owner := st.owner[p := who], offs := st.offs[r := st.offs[r] + size])
  }

  lemma BlockSound(st: Store, r: Region, size: nat, who: Owner)
    requires Sound(st) && r in st.offs && size >= LINK_SIZE && who != OnList
    ensures Sound(WithBlock(st, r, size, who)) && Place(r, st.offs[r]) !in st.carved
    ensures Contained(WithBlock(st, r, size, who)) <==> Contained(st) && st.offs[r] + size <= r.size
  {
    BlockApart(st, r, size, who);
    BlockCovers(st, r, size, who);
    BlockFiled(st, r, size, who);
    var st' := WithBlock(st, r, size, who);
    hide BlocksApart, NothingLost, Filed, AllLinked;
    assert forall x :: x in st.offs ==> st.offs[x] <= st'.offs[x];
  }

  lemma BlockApart(st: Store, r: Region, size: nat, who: Owner)
    requires BlocksApart(st.carved, st.offs) && r in st.offs && size >= LINK_SIZE
    ensures BlocksApart(WithBlock(st, r, size, who).carved, WithBlock(st, r, size, who).offs)
    ensures Place(r, st.offs[r]) !in st.carved
  {}

  lemma BlockCovers(st: Store, r: Region, size: nat, who: Owner)
    requires NothingLost(st.carved, st.offs) && r in st.offs && Place(r, st.offs[r]) !in st.carved
    ensures NothingLost(WithBlock(st, r, size, who).carved, WithBlock(st, r, size, who).offs)
  {
    var st' := WithBlock(st, r, size, who);
    forall x, b | x in st'.offs && 0 <= b < st'.offs[x] ensures InSomeBlock(st'.carved, x, b) {
      if x == r && b >= st.offs[r] {
        var p := Place(r, st.offs[r]);
        assert p in st'.carved && Covers(p, st'.carved[p], x, b);
      } else {
        assert InSomeBlock(st.carved, x, b);
        var p :| p in st.carved && Covers(p, st.carved[p], x, b);
        assert st'.carved[p] == st.carved[p];
      }
    }
  }

  lemma BlockFiled(st: Store, r: Region, size: nat, who: Owner)
    requires Filed(st.carved, st.owner, st.lists) && r in st.offs && Place(r, st.offs[r]) !in st.carved && who != OnList
    ensures Filed(WithBlock(st, r, size, who).carved, WithBlock(st, r, size, who).owner, st.lists)
  {}

  /** The first block on the list of its size is handed out again. */
  ghost function WithReuse(st: Store, size: nat, who: Owner): Store
    requires size in st.lists && st.lists[size] != [] && size in st.tops && st.tops[size] in st.links
  {
    st.(owner := st.owner[st.lists[size][0] := who], tops := st.tops[size := st.links[st.tops[size]]],
        lists := st.lists[size := st.lists[size][1..]])
  }

  lemma ReuseSound(st: Store, size: nat, who: Owner)
    requires Sound(st) && size in st.lists && who != OnList
    ensures size in st.tops && (st.tops[size] == Null <==> st.lists[size] == [])
    ensures st.tops[size] != Null ==>
              && st.tops[size] == st.lists[size][0] && st.tops[size] in st.links && Sound(WithReuse(st, size, who))
              && st.tops[size] in st.carved && st.carved[st.tops[size]] == size && st.owner[st.tops[size]] == OnList
  {
    var list := st.lists[size];
    assert list != [] ==> list[0] in list && list[0] in st.carved && list[0].Place?;
    hide BlocksApart, NothingLost;
    assert LinkedFrom(st.links, st.tops[size], list);
    if list != [] {
      var st' := WithReuse(st, size, who);
      assert list[0] in list && list == [list[0]] + list[1..];
      assert Distinct(list);
      DistinctCons(list[0], list[1..]);
      assert AllLinked(st'.links, st'.tops, st'.lists) by { hide Filed, Distinct; }
      FiledChange(st.carved, st.owner, st.lists, list[0], who, size, list[1..]);
      hide *;
    }
  }

  /** Block p alone changes hands, and the list of its size says so. */
  lemma FiledChange(carved: map<Ptr, nat>, owner: map<Ptr, Owner>, lists: map<nat, seq<Ptr>>,
                    p: Ptr, who: Owner, size: nat, list: seq<Ptr>)
    requires Filed(carved, owner, lists) && p in carved && carved[p] == size && Distinct(list)
    requires forall q :: q != p ==> (q in list <==> size in lists && q in lists[size])
    requires (who == OnList <==> p in list) && size >= LINK_SIZE
    ensures Filed(carved, owner[p := who], lists[size := list])
  {
    hide Distinct;
    var owner', lists' := owner[p := who], lists[size := list];
    forall s, q | s in lists' && q in lists'[s] ensures q in carved && carved[q] == s {
      assert q != p ==> s in lists && q in lists[s];
    }
    forall q | q in carved ensures owner'[q] == OnList <==> carved[q] in lists' && q in lists'[carved[q]] {}
  }

  /** Block p goes to the front of the list of its size. */
  ghost function WithFreed(st: Store, p: Ptr, size: nat): Store
    requires size in st.lists && size in st.tops
  {
    st.(owner := st.owner[p := OnList], links := st.links[p := st.tops[size]], tops := st.tops[size := p],
        lists := st.lists[size := [p] + st.lists[size]])
  }

  lemma FreedSound(st: Store, p: Ptr, size: nat)
    requires Sound(st) && p in st.carved && st.carved[p] == size && st.owner[p] == User && size in st.lists
    ensures size in st.tops && Sound(WithFreed(st, p, size))
  {
    hide BlocksApart, NothingLost, Filed, AllLinked, Distinct;
    OnNoList(st, p, size);
    var links' := st.links[p := st.tops[size]];
    OwnLink(st, p, st.tops[size]);
    WriteSound(st, p, links');
    DistinctCons(p, st.lists[size]);
    FiledChange(st.carved, st.owner, st.lists, p, OnList, size, [p] + st.lists[size]);
    PushLinked(links', st.tops, st.lists, p, size);
  }

  lemma OnNoList(st: Store, p: Ptr, size: nat)
    requires Sound(st) && p in st.carved && st.carved[p] == size && st.owner[p] == User && size in st.lists
    ensures size >= LINK_SIZE && size in st.tops && p !in st.lists[size] && Distinct(st.lists[size])
  {
    hide NothingLost, LinkedFrom, Distinct;
  }

  /** A block that links to the first of a list comes in front of it. */
  lemma PushLinked(links: map<Ptr, Ptr>, tops: map<nat, Ptr>, lists: map<nat, seq<Ptr>>, p: Ptr, size: nat)
    requires AllLinked(links, tops, lists) && size in lists && size in tops && p in links && links[p] == tops[size]
    ensures AllLinked(links, tops[size := p], lists[size := [p] + lists[size]])
  {
    var list := [p] + lists[size];
    assert list[1..] == lists[size];
    assert LinkedFrom(links, p, list);
    hide LinkedFrom;
  }

  /** A size seen for the first time gets a list, with block p on it. */
  ghost function WithList(st: Store, p: Ptr, size: nat): Store {
    st.(owner := st.owner[p := OnList], tops := st.tops[size := p], lists := st.lists[size := [p]])
  }

  lemma ListSound(st: Store, p: Ptr, size: nat)
    requires Sound(st) && p in st.carved && st.carved[p] == size && st.owner[p] == User && size !in st.lists
    requires p in st.links && st.links[p] == Null
    ensures Sound(WithList(st, p, size))
  {
    hide NothingLost, Filed;
    assert size >= LINK_SIZE;
    hide BlocksApart;
    var st' := WithList(st, p, size);
    assert [p] + [] == [p] && [p][1..] == [];
    DistinctCons(p, []);
    assert LinkedFrom(st'.links, p, [p]);
    assert AllLinked(st'.links, st'.tops, st'.lists) by { hide Filed, LinkedFrom; }
    FiledChange(st.carved, st.owner, st.lists, p, OnList, size, [p]);
    hide LinkedFrom, AllLinked, Distinct;
  }

  /** The program, or the allocator, writes into a block that is in use: no word outside the block changes. */
  ghost predicate WritesWithin(st: Store, p: Ptr, links': map<Ptr, Ptr>)
    requires p in st.carved
  {
    forall q :: q in st.links && Clear(p, st.carved[p], q, LINK_SIZE) ==> q in links' && links'[q] == st.links[q]
  }

  lemma WriteSound(st: Store, p: Ptr, links': map<Ptr, Ptr>)
    requires Sound(st) && p in st.carved && st.owner[p] != OnList && WritesWithin(st, p, links')
    ensures Sound(st.(links := links'))
  {
    hide NothingLost, LinkedFrom;
    forall s | s in st.lists ensures LinkedFrom(links', st.tops[s], st.lists[s]) {
      forall q | q in st.lists[s] && q in st.links ensures q in links' && links'[q] == st.links[q] {
        assert q in st.carved && Clear(p, st.carved[p], q, st.carved[q]);
      }
      LinksElsewhere(st.links, links', st.tops[s], st.lists[s]);
    }
    hide BlocksApart, Filed;
  }

  // ---- what callers see

  /** From st to st', a block of the given size came into the hands of who: the one freed last, or else a new one. */
  ghost predicate Handed(st: Store, p: Ptr, size: nat, who: Owner, st': Store) {
    && p.Place? && st'.carved == st.carved[p := size] && st'.owner == st.owner[p := who] && st'.links == st.links
    && if size in st.lists && st.lists[size] != [] then
         && p == st.lists[size][0] && p in st.carved && st.carved[p] == size && p in st.owner && st.owner[p] == OnList
         && st'.lists == st.lists[size := st.lists[size][1..]] && st'.offs == st.offs
       else p !in st.carved && st'.lists == st.lists
  }

  /**
  Where a new block of the given size lies: behind the last one if it still fits the region cur, used up to off, and
  otherwise at the start of exactly one new region of standard size in front of it.
   */
  ghost predicate Carved(cur: Region, off: nat, id: nat, offs: map<Region, nat>, size: nat, p: Ptr,
                         cur': Region, id': nat, offs': map<Region, nat>)
    reads cur'`next
  {
    if size + off <= cur.size then
      cur' == cur && id' == id && p == Place(cur, off) && offs' == offs[cur := off + size]
    else
      && cur' != cur && cur'.next == cur && cur'.size == REGION_SIZE && cur'.id == id && id' == id + 1
      && p == Place(cur', 0) && offs' == offs[cur' := size]
  }

  lemma ReusedHanded(st: Store, size: nat, who: Owner)
    requires Sound(st) && size in st.lists && st.lists[size] != [] && who != OnList
    ensures size in st.tops && st.tops[size] in st.links
    ensures Handed(st, st.tops[size], size, who, WithReuse(st, size, who))
  {
    ReuseSound(st, size, who);
    var p := st.lists[size][0];
    assert st.carved[p := size] == st.carved;
  }

  /** Every used byte is in exactly one block, which has exactly one owner. */
  lemma OneBlockPerByte(st: Store, r: Region, b: nat)
    requires Sound(st) && r in st.offs && b < st.offs[r]
    ensures exists p :: p in st.carved && Covers(p, st.carved[p], r, b) && p in st.owner
                        && forall q :: q in st.carved && Covers(q, st.carved[q], r, b) ==> q == p
  {
    assert InSomeBlock(st.carved, r, b);
    var p :| p in st.carved && Covers(p, st.carved[p], r, b);
    forall q | q in st.carved && Covers(q, st.carved[q], r, b) ensures q == p {
      assert q != p ==> Clear(p, st.carved[p], q, st.carved[q]);
    }
  }

  class SizeGroup {
    const size: nat
    var top: Ptr

    constructor (size: nat, top: Ptr)
      ensures this.size == size && this.top == top
    {
      this.size, this.top := size, top;
    }
  }

  class SharedMem {
    var current: Region
    var nextId: nat
    const free: AvlTree
    var links: map<Ptr, Ptr>
    ghost var st: Store
    ghost var groups: map<int, SizeGroup>
    ghost var homes: map<object, Ptr>

    /** The regions are used as far as the state says. */
    ghost predicate Regions()
      reads this`current, this`st, st.offs.Keys`off
    {
      current in st.offs && UsedTo(st.offs)
    }

    /** The list heads and the links in memory are those of the state. */
    ghost predicate Groups()
      reads this`links, this`st, this`groups, groups.Values`top
    {
      links == st.links && Heads(groups, st.tops)
    }

    ghost predicate Indexed()
      reads this`groups, free
    {
      Files(free.Contents(), groups)
    }

    /** The tree, its nodes and the list heads have blocks of their own. */
    ghost predicate Housed()
      reads this`st, this`groups, this`homes, free
    {
      Apartments(homes, st) && HousesAll(homes, st.carved, free, groups, free.Contents())
    }

    ghost predicate Valid()
      reads this, st.offs.Keys, groups.Values, free, Nodes(free.tree)
    {
      Sound(st) && Regions() && Groups() && free.Valid() && Indexed() && Housed()
    }

    /** One region, and in it the block of the empty tree. */
    constructor ()
      ensures Valid() && Contained(st) && st.lists == map[] && UserBlocks(st) == {}
      ensures current.id == 0 && current.size == REGION_SIZE && current.next == null && nextId == 1
      ensures st.offs == map[current := TREE_SIZE] && st.carved == map[Place(current, 0) := TREE_SIZE]
      ensures fresh(st.offs.Keys) && fresh(free) && fresh(Nodes(free.tree)) && fresh(groups.Values)
    {
      hide Sound, Contained, AvlTree.Valid, Created;
      var r := new Region(0, REGION_SIZE);
      r.off := r.off + TREE_SIZE;
      var f := new AvlTree();
      TreeAllocated(f.tree);
      current, nextId, free, links := r, 1, f, map[];
      st, groups, homes := Created(r), map[], map[f := Place(r, 0)];
    }

    /** A region of the given size becomes the current one. */
    method AddRegion(size: nat) returns (ok: bool)
      requires Sound(st) == true && Regions() == true
      modifies this`current, this`nextId, this`st
      ensures Sound(st) == true && Regions() == true && ok == (size > 0)
      ensures if ok then fresh(current) && current.next == old(current) && current.size == size
        && current.id == old(nextId)
                         && nextId == old(nextId) + 1 && st == WithRegion(old(st), current)
              else current == old(current) && nextId == old(nextId) && st == old(st)
      ensures Contained(st) <==> old(Contained(st))
    {
      hide Sound;
      if size <= 0 {
        return false;
      }
      var r := new Region(nextId, size);
      RegionSound(st, r);
      r.next := current;
      st, current, nextId := WithRegion(st, r), r, nextId + 1;
      ok := true;
    }

    /** The next bytes of the current region. */
    method Bump(size: nat, ghost who: Owner) returns (p: Ptr)
      requires Sound(st) == true && Regions() == true && size >= LINK_SIZE && who != OnList
      modifies this`st, current`off
      ensures Sound(st) == true && Regions() == true && p !in old(st.carved)
      ensures p == Place(current, old(current.off)) && current in old(st.offs)
        && old(st.offs)[current] == old(current.off)
      ensures st == WithBlock(old(st), current, size, who)
      ensures Contained(st) <==> old(Contained(st)) && old(current.off) + size <= current.size
    {
      hide Sound, Contained;
      BlockSound(st, current, size, who);
      p := Place(current, current.off);
      current.off := current.off + size;
      st := WithBlock(st, current, size, who);
    }

    /** The next bytes of the current region; of a new one, if they do not fit. */
    method Carve(size: nat, ghost who: Owner) returns (p: Ptr)
      requires Sound(st) == true && Regions() == true && size >= LINK_SIZE && who != OnList
      modifies this`current, this`nextId, this`st, current`off
      ensures Sound(st) == true && Regions() == true && p.Place? && p !in old(st.carved)
      ensures (current == old(current) || fresh(current))
        && Carved(old(current), old(current.off), old(nextId), old(st.offs), size, p, current, nextId, st.offs) == true
      ensures st.carved == old(st.carved)[p := size] && st.owner == old(st.owner)[p := who]
      ensures st.links == old(st.links) && st.tops == old(st.tops) && st.lists == old(st.lists)
      ensures var fits := size + old(current.off) <= old(current).size;
        Contained(st) <==> old(Contained(st)) && (fits || size <= REGION_SIZE)
    {
      hide Sound, Contained;
      if size + current.off > current.size {
        var ok := AddRegion(REGION_SIZE);
      }
      p := Bump(size, who);
    }

    /** Takes the first block off the list of a size. */
    method Reuse(s: SizeGroup, ghost who: Owner) returns (p: Ptr)
      requires Sound(st) == true && Regions() == true && Groups() == true && s.top != Null && who != OnList
      requires s.size in groups && groups[s.size] == s && s.size in st.lists
      modifies this`st, s
      ensures Sound(st) == true && Regions() == true && Groups() == true && s.size in old(st.lists)
        && old(st.lists)[s.size] != []
      ensures Handed(old(st), p, s.size, who, st) && st.offs == old(st.offs)
      ensures Contained(st) <==> old(Contained(st))
    {
      hide Sound, Handed, Contained;
      ReuseSound(st, s.size, who);
      ReusedHanded(st, s.size, who);
      p := s.top;
      s.top := links[p];
      st := WithReuse(st, s.size, who);
      SameUse(old(st), st);
    }

    /** The list head for a size, if the size has been freed before. */
    method FindGroup(size: nat) returns (s: SizeGroup?)
      requires free.Valid() == true && Indexed() == true && Groups() == true
      ensures s == null <==> size !in st.tops
      ensures s != null ==> size in groups && groups[size] == s && s.size == size
      ensures s != null ==> (s.top != Null <==> st.tops[size] != Null)
    {
      var n;
      ghost var steps;
      n, steps := free.Find(size);
      hide AvlTree.Valid, AvlTree.Contents;
      s := if n == null then null else n.data as SizeGroup;
    }

    /** A block of the given size: the one freed last, or else a new one. Requests for less than a link are refused. */
    method Malloc(size: nat, ghost who: Owner) returns (p: Ptr)
      requires Valid() == true && who != OnList
      modifies this`current, this`nextId, this`st, current`off, groups.Values
      ensures Valid() == true && (current == old(current) || fresh(current))
      ensures if size < LINK_SIZE || (size in old(st.lists) && old(st.lists)[size] != []) then
                current == old(current) && nextId == old(nextId) && st.offs == old(st.offs)
              else
                Carved(old(current), old(current.off), old(nextId), old(st.offs), size, p, current, nextId, st.offs)
      ensures if size < LINK_SIZE then p == Null && st == old(st) else Handed(old(st), p, size, who, st)
      ensures var reused := size in old(st.lists) && old(st.lists)[size] != [];
        var fits := size + old(current.off) <= old(current).size;
        Contained(st) <==> old(Contained(st)) && (size < LINK_SIZE || reused || fits || size <= REGION_SIZE)
    {
      hide AvlTree.Valid, AvlTree.Contents, Nodes, Sound, Handed, Contained, Apartments, HousesAll, Files, Heads,
        Regions, Carved;
      if size < LINK_SIZE {
        return Null;
      }
      TreeAllocated(free.tree);
      var s := FindGroup(size);
      TopsKnown(st, size);
      if s != null && s.top != Null {
        p := Reuse(s, who);
      } else {
        p := Carve(size, who);
        CarvedHanded(old(st), p, size, who, st);
      }
      HandedKeeps(old(st), p, size, who, st);
      HousedKept(homes, old(st), st, free, groups, free.Contents());
    }

    /** A block in use may be written by whoever uses it: nothing of the allocator's changes. */
    method Write(p: Ptr, words: map<Ptr, Ptr>)
      requires Valid() == true && p in st.carved && p in st.owner && st.owner[p] != OnList && WritesWithin(st, p, words)
      modifies this`links, this`st
      ensures Valid() == true && st == old(st).(links := words)
    {
      hide AvlTree.Valid, AvlTree.Contents, Nodes, Sound, Apartments, HousesAll, Files, Heads, WritesWithin;
      TreeAllocated(free.tree);
      WriteSound(st, p, words);
      HousedKept(homes, st, st.(links := words), free, groups, free.Contents());
      links := words;
      st := st.(links := words);
    }

    /** The block goes to the front of the list of its size. */
    method Push(s: SizeGroup, p: Ptr, size: nat)
      requires Valid() == true && size in groups && groups[size] == s && size in st.lists
      requires p in st.carved && p in st.owner && st.carved[p] == size && st.owner[p] == User
      modifies this`links, this`st, s`top
      ensures Valid() == true && size in old(st.tops) && st == WithFreed(old(st), p, size) && st.offs == old(st.offs)
    {
      hide AvlTree.Valid, AvlTree.Contents, Nodes, Sound, Apartments, HousesAll, Files, UsedTo, Heads;
      TreeAllocated(free.tree);
      FreedSound(st, p, size);
      HousedKept(homes, st, WithFreed(st, p, size), free, groups, free.Contents());
      Relink(s, p, size);
    }

    method Relink(s: SizeGroup, p: Ptr, size: nat)
      requires Groups() == true && size in groups && groups[size] == s && size in st.lists && size in st.tops
      modifies this`links, this`st, s`top
      ensures Groups() == true && st == WithFreed(old(st), p, size)
    {
      hide Heads;
      HeadOf(groups, st.tops, size);
      links := links[p := s.top];
      s.top := p;
      HeadMoved(groups, st.tops, size);
      st := WithFreed(st, p, size);
    }

    /**
    Takes back a block. A size freed for the first time first gets a list head and a tree node, both allocated here
    while the block is still in use. With a size too small for any block nothing is taken back, and a list head is lost.
     */
    method Free(p: Ptr, size: nat)
      requires Valid() == true
      requires p != Null && size >= LINK_SIZE ==> p in UserBlocks(st) && p in st.carved && st.carved[p] == size
      modifies this, current`off, groups.Values, free, Nodes(free.tree)
      ensures Valid() == true && (current == old(current) || fresh(current))
      ensures Contained(st) <==> old(Contained(st))
      ensures size in old(st.lists) ==> current == old(current) && nextId == old(nextId) && st.offs == old(st.offs)
      ensures if p == Null || size == 0 then st == old(st)
              else if size < LINK_SIZE then exists h :: Handed(old(st), h, GROUP_SIZE, Allocator, st)
              else Released(old(st), p, size, st)
    {
      hide AvlTree.Valid, AvlTree.Contents, Nodes, Sound, Apartments, HousesAll, Files, Heads, Regions, Contained,
        Handed, Released, Vacant, WithFreed, Carved;
      if p == Null || size <= 0 {
        return;
      }
      TreeAllocated(free.tree);
      var s := FindGroup(size);
      TopsKnown(st, size);
      if s != null {
        PushReleases(st, p, size);
        Push(s, p, size);
        SameUse(old(st), st);
      } else {
        var home := Malloc(GROUP_SIZE, Allocator);
        ghost var st1 := st;
        HandedVacant(homes, old(st), home, GROUP_SIZE, st1);
        HandedElsewhere(old(st), home, GROUP_SIZE, st1);
        if home == Null || size < LINK_SIZE {
          return;
        }
        NewGroup(p, size, home);
        ReleasedAfter(old(st), home, GROUP_SIZE, st1, p, size, st);
      }
    }

    /** Makes the list head of a new size in the block home, with block p on its list, and files it in the tree. */
    method NewGroup(p: Ptr, size: nat, home: Ptr)
      requires Valid() == true && size !in st.lists && Vacant(homes, st, home, GROUP_SIZE) == true
      requires p in UserBlocks(st) && p in st.carved && st.carved[p] == size
      modifies this, current`off, groups.Values, free, Nodes(free.tree)
      ensures Valid() == true && (current == old(current) || fresh(current))
      ensures Contained(st) <==> old(Contained(st))
      ensures Released(old(st), p, size, st) == true
      ensures forall s :: s in old(st.lists) && s != NODE_SIZE ==> s in st.lists && st.lists[s] == old(st.lists)[s]
    {
      hide AvlTree.Valid, AvlTree.Contents, Nodes, Sound, Apartments, HousesAll, Files, Heads, Regions, Contained,
        Handed, Vacant, Houses, Released, SharedMem.Valid, SharedMem.Groups, SharedMem.Indexed, SharedMem.Housed;
      TreeAllocated(free.tree);
      var s := NewHead(p, size, home);
      ghost var st1 := st;
      var node := MakeNodeFor(s, p, old(st));
      ghost var st2 := st;
      FileGroup(s, node, p);
      SameUse(old(st), st1);
      SameUse(st2, st);
    }

    /** The tree node for the list head of block p; st0 is the state before the head was made. */
    method MakeNodeFor(s: SizeGroup, p: Ptr, ghost st0: Store) returns (node: Node)
      requires Valid() == true && st == st0.(links := st0.links[p := Null])
      requires s.size !in st0.lists && p in UserBlocks(st0) && p in st0.carved && st0.carved[p] == s.size
      requires s !in groups.Values && s in homes && Houses(homes, st.carved, s, GROUP_SIZE)
      modifies this`current, this`nextId, this`st, this`homes, current`off, groups.Values
      ensures Valid() == true && (current == old(current) || fresh(current))
      ensures Contained(st) <==> old(Contained(st))
      ensures fresh(node) && node.key == s.size && node.data == s
      ensures node.parent == null && node.left == null && node.right == null && node.balance == 0
      ensures Houses(homes, st.carved, node, NODE_SIZE) && Houses(homes, st.carved, s, GROUP_SIZE)
      ensures s.size !in st.lists && p in UserBlocks(st) && p in st.carved && st.carved[p] == s.size
      ensures p in st.links && st.links[p] == Null && Released(st0, p, s.size, WithList(st, p, s.size)) == true
      ensures forall s :: s in st0.lists && s != NODE_SIZE ==> s in st.lists && st.lists[s] == st0.lists[s]
    {
      hide AvlTree.Valid, AvlTree.Contents, Nodes, Sound, Apartments, HousesAll, Files, Heads, Regions, Contained,
        Handed, Vacant, Houses, Released, WithList, UserBlocks;
      node := MakeNode(s);
      GroupReleases(st0, old(st), st, p, s.size);
      HousesKept(old(homes), homes, old(st).carved, st.carved, s, GROUP_SIZE);
    }

    /** A list head in the block home, for the list of block p alone. */
    method NewHead(p: Ptr, size: nat, home: Ptr) returns (s: SizeGroup)
      requires Valid() == true && Vacant(homes, st, home, GROUP_SIZE) == true
      requires p in UserBlocks(st) && p in st.carved && st.carved[p] == size
      modifies this`links, this`st, this`homes
      ensures Valid() == true && st == old(st).(links := old(st.links)[p := Null])
      ensures s !in groups.Values && s.size == size && s.top == p && s in homes
        && Houses(homes, st.carved, s, GROUP_SIZE)
    {
      hide AvlTree.Valid, AvlTree.Contents, Nodes, Sound, Apartments, HousesAll, Files, Heads, Regions, Contained;
      TreeAllocated(free.tree);
      OwnLink(st, p, Null);
      Write(p, links[p := Null]);
      s := new SizeGroup(size, p);
      MoveIn(homes, st, s, home, GROUP_SIZE, free, groups, free.Contents());
      homes := homes[s := home];
    }

    /** A block for one of the allocator's own objects. */
    method MallocHome(size: nat) returns (h: Ptr)
      requires Valid() == true && size >= LINK_SIZE
      modifies this`current, this`nextId, this`st, current`off, groups.Values
      ensures Valid() == true && (current == old(current) || fresh(current))
      ensures size <= REGION_SIZE ==> (Contained(st) <==> old(Contained(st)))
      ensures Handed(old(st), h, size, Allocator, st) == true && Vacant(homes, st, h, size) == true && Sound(old(st))
    {
      hide AvlTree.Valid, AvlTree.Contents, Nodes, Sound, Apartments, HousesAll, Files, Heads, Regions, Contained,
        Handed, Vacant, Carved;
      h := Malloc(size, Allocator);
      HandedVacant(homes, old(st), h, size, st);
    }

    /** A tree node for a list head, in a block of its own. */
    method MakeNode(s: SizeGroup) returns (node: Node)
      requires Valid() == true
      modifies this`current, this`nextId, this`st, this`homes, current`off, groups.Values
      ensures Valid() == true && (current == old(current) || fresh(current))
      ensures Contained(st) <==> old(Contained(st))
      ensures fresh(node) && node.key == s.size && node.data == s && Houses(homes, st.carved, node, NODE_SIZE)
      ensures node.parent == null && node.left == null && node.right == null && node.balance == 0
      ensures homes.Keys == old(homes.Keys) + {node} && forall o :: o in old(homes) ==> homes[o] == old(homes[o])
      ensures (exists h :: Handed(old(st), h, NODE_SIZE, Allocator, st)) && Sound(old(st))
    {
      hide AvlTree.Valid, AvlTree.Contents, Nodes, Sound, Apartments, HousesAll, Files, Heads, Regions, Contained,
        Handed, Houses, Vacant, Carved;
      TreeAllocated(free.tree);
      var h := MallocHome(NODE_SIZE);
      node := new Node(s.size, s);
      MoveIn(homes, st, node, h, NODE_SIZE, free, groups, free.Contents());
      homes := homes[node := h];
    }

    /** Files a list head, with block p as its list, under its size. */
    method FileGroup(s: SizeGroup, node: Node, p: Ptr)
      requires Valid() == true && s.size !in st.lists && s.top == p
      requires Houses(homes, st.carved, node, NODE_SIZE) && Houses(homes, st.carved, s, GROUP_SIZE)
      requires node !in Nodes(free.tree) && node.key == s.size && node.data == s
      requires node.parent == null && node.left == null && node.right == null && node.balance == 0
      requires p in UserBlocks(st) && p in st.carved && st.carved[p] == s.size && p in st.links && st.links[p] == Null
      modifies this`st, this`groups, free, Nodes(free.tree), node
      ensures Valid() == true && st == WithList(old(st), p, s.size) && st.offs == old(st.offs)
    {
      hide AvlTree.Valid, AvlTree.Contents, Nodes, Sound, Apartments, HousesAll, Files, UsedTo, Houses, Inserted;
      TreeAllocated(free.tree);
      ListSound(st, p, s.size);
      TopsKnown(st, s.size);
      ghost var st' := WithList(st, p, s.size);
      HousedKept(homes, st, st', free, groups, free.Contents());
      hide Heads, UserBlocks;
      AddNode(s, node);
      TreeAllocated(free.tree);
      hide WithList;
      RecordGroup(s, p);
    }

    ghost method RecordGroup(s: SizeGroup, p: Ptr)
      requires Groups() == true && Regions() == true && s.top == p && s.size !in st.tops
      modifies this`st, this`groups
      ensures Groups() == true && Regions() == true
      ensures st == WithList(old(st), p, s.size) && groups == old(groups)[s.size := s]
    {
      hide UsedTo;
      st, groups := WithList(st, p, s.size), groups[s.size := s];
    }

    method AddNode(s: SizeGroup, node: Node)
      requires free.Valid() == true && Files(free.Contents(), groups) == true && s.size !in groups
      requires HousesAll(homes, st.carved, free, groups, free.Contents()) == true
      requires Houses(homes, st.carved, node, NODE_SIZE) && Houses(homes, st.carved, s, GROUP_SIZE)
      requires node !in Nodes(free.tree) && node.key == s.size && node.data == s
      requires node.parent == null && node.left == null && node.right == null && node.balance == 0
      modifies free, Nodes(free.tree), node
      ensures free.Valid() == true && Files(free.Contents(), groups[s.size := s])
      ensures HousesAll(homes, st.carved, free, groups[s.size := s], free.Contents())
    {
      hide AvlTree.Valid, AvlTree.Contents, Nodes, Sound, HousesAll, Files, Houses, Inserted;
      TreeAllocated(free.tree);
      FilesInserted(free.Contents(), groups, node, s);
      HousesInserted(homes, st.carved, free, groups, free.Contents(), s, node);
      var ok := free.Add(node);
    }
  }

  /** Block h is in the allocator's hands and nothing lives in it yet. */
  ghost predicate Vacant(homes: map<object, Ptr>, st: Store, h: Ptr, size: nat) {
    && h in st.carved && st.carved[h] == size && h in st.owner && st.owner[h] == Allocator
    && forall o :: o in homes ==> homes[o] != h
  }

  lemma HandedVacant(homes: map<object, Ptr>, st: Store, h: Ptr, size: nat, st': Store)
    requires Handed(st, h, size, Allocator, st') && Apartments(homes, st)
    ensures Vacant(homes, st', h, size) && h.Place?
  {}

  lemma MoveIn(homes: map<object, Ptr>, st: Store, o: object, h: Ptr, size: nat, tree: AvlTree,
               groups: map<int, SizeGroup>, nodes: seq<Node>)
    requires Apartments(homes, st) && Vacant(homes, st, h, size) && o !in homes
    requires HousesAll(homes, st.carved, tree, groups, nodes)
    ensures Apartments(homes[o := h], st) && HousesAll(homes[o := h], st.carved, tree, groups, nodes)
    ensures Houses(homes[o := h], st.carved, o, size)
  {}

  /** A block for the allocator itself is none of the program's, and the list of another size is as it was. */
  lemma HandedElsewhere(st: Store, h: Ptr, size: nat, st': Store)
    requires Handed(st, h, size, Allocator, st') && Sound(st)
    ensures UserBlocks(st') == UserBlocks(st) && st'.lists.Keys == st.lists.Keys && st'.links == st.links
    ensures forall s :: s in st.lists && s != size ==> st'.lists[s] == st.lists[s]
    ensures forall p :: p in st.carved ==> p in st'.carved && st'.carved[p] == st.carved[p]
  {}

  /** Block p, of the given size, has left the program's hands and is the first to be handed out again. */
  ghost predicate Released(st: Store, p: Ptr, size: nat, st': Store) {
    && UserBlocks(st') == UserBlocks(st) - {p} && Keeps(st, st')
    && size in st'.lists && st'.lists[size] == [p] + (if size in st.lists then st.lists[size] else [])
    && (forall s :: s in st.lists && s != size && s != GROUP_SIZE && s != NODE_SIZE ==>
          s in st'.lists && st'.lists[s] == st.lists[s])
    && (size in st.lists ==> st'.carved == st.carved && st'.offs == st.offs)
  }

  /** A link fits in a block. */
  lemma OwnLink(st: Store, p: Ptr, q: Ptr)
    requires Sound(st) && p in st.carved
    ensures WritesWithin(st, p, st.links[p := q])
  {}

  lemma HousesInserted(homes: map<object, Ptr>, carved: map<Ptr, nat>, tree: AvlTree, groups: map<int, SizeGroup>,
                       nodes: seq<Node>, s: SizeGroup, n: Node)
    requires HousesAll(homes, carved, tree, groups, nodes)
    requires Houses(homes, carved, s, GROUP_SIZE) && Houses(homes, carved, n, NODE_SIZE)
    ensures HousesAll(homes, carved, tree, groups[s.size := s], Inserted(nodes, n))
  {
    forall m | m in Inserted(nodes, n) ensures m == n || m in nodes {
      InsertedMembers(nodes, n, m);
    }
  }

  lemma PushReleases(st: Store, p: Ptr, size: nat)
    requires p in st.carved && p in st.owner && st.owner[p] == User && size in st.lists && size in st.tops
    ensures Released(st, p, size, WithFreed(st, p, size))
  {}

  /** The block is released by filing its list, once the list head and the tree node have their blocks. */
  lemma GroupReleases(st: Store, st1: Store, st2: Store, p: Ptr, size: nat)
    requires Sound(st1) && st1 == st.(links := st1.links) && exists h :: Handed(st1, h, NODE_SIZE, Allocator, st2)
    requires p in UserBlocks(st) && size !in st.lists
    ensures Released(st, p, size, WithList(st2, p, size)) && p in UserBlocks(st2) && size !in st2.lists
    ensures st2.links == st1.links && forall q :: q in st1.carved ==> q in st2.carved && st2.carved[q] == st1.carved[q]
    ensures forall s :: s in st.lists && s != NODE_SIZE ==> s in st2.lists && st2.lists[s] == st.lists[s]
  {
    var h :| Handed(st1, h, NODE_SIZE, Allocator, st2);
    HandedKeeps(st1, h, NODE_SIZE, Allocator, st2);
    HandedElsewhere(st1, h, NODE_SIZE, st2);
    UserBlocksSame(st, st1);
    hide Sound, Handed;
    KeepsThrough(st, st1, st2, p, size);
  }

  lemma KeepsThrough(st: Store, st1: Store, st2: Store, p: Ptr, size: nat)
    requires st1 == st.(links := st1.links) && Keeps(st1, st2) && p in UserBlocks(st)
    requires UserBlocks(st2) == UserBlocks(st1) && UserBlocks(st1) == UserBlocks(st)
    requires size !in st.lists
    requires forall s :: s in st.lists && s != NODE_SIZE ==> s in st2.lists && st2.lists[s] == st.lists[s]
    ensures Released(st, p, size, WithList(st2, p, size))
  {
    assert p in UserBlocks(st2);
    ListTakesBlock(st2, p, size);
    hide UserBlocks;
  }

  lemma ListTakesBlock(st: Store, p: Ptr, size: nat)
    requires p in UserBlocks(st)
    ensures UserBlocks(WithList(st, p, size)) == UserBlocks(st) - {p} && Keeps(st, WithList(st, p, size))
  {}

  /** What has a home keeps it. */
  lemma HousesKept(homes: map<object, Ptr>, homes': map<object, Ptr>, carved: map<Ptr, nat>, carved': map<Ptr, nat>,
                   o: object, size: nat)
    requires Houses(homes, carved, o, size) && o in homes' && homes'[o] == homes[o]
    requires forall q :: q in carved ==> q in carved' && carved'[q] == carved[q]
    ensures Houses(homes', carved', o, size)
  {}

  lemma UserBlocksSame(st: Store, st1: Store)
    requires st1.owner == st.owner
    ensures UserBlocks(st1) == UserBlocks(st)
  {}

  /** The block of the list head came first. */
  lemma ReleasedAfter(st: Store, h: Ptr, n: nat, st1: Store, p: Ptr, size: nat, st2: Store)
    requires Sound(st) && Handed(st, h, n, Allocator, st1) && Released(st1, p, size, st2) && size !in st.lists
    requires n == GROUP_SIZE
    ensures Released(st, p, size, st2)
  {
    hide Sound;
    HandedKeeps(st, h, n, Allocator, st1);
    HandedElsewhere(st, h, n, st1);
  }

  lemma SameUse(st: Store, st': Store)
    requires st'.offs == st.offs
    ensures Contained(st') <==> Contained(st)
  {}

  lemma TopsKnown(st: Store, size: nat)
    requires Sound(st)
    ensures size in st.lists <==> size in st.tops
    ensures size in st.lists ==> (st.tops[size] == Null <==> st.lists[size] == []) && size >= LINK_SIZE
  {
    if size in st.lists { ReuseSound(st, size, User); }
  }

  lemma CarvedHanded(st: Store, p: Ptr, size: nat, who: Owner, st': Store)
    requires p.Place? && p !in st.carved && (size in st.lists ==> st.lists[size] == [])
    requires st'.carved == st.carved[p := size] && st'.owner == st.owner[p := who] && st'.links == st.links
    requires st'.lists == st.lists
    ensures Handed(st, p, size, who, st')
  {}

  /** One region with the block of the tree in it. */
  ghost function Created(r: Region): (st: Store)
    requires r.size == REGION_SIZE
    ensures Sound(st) && Contained(st) && st.carved == map[Place(r, 0) := TREE_SIZE]
    ensures st.owner == map[Place(r, 0) := Allocator] && st.offs == map[r := TREE_SIZE]
    ensures st.links == map[] && st.tops == map[] && st.lists == map[]
  {
    var empty := Store(map[], map[], map[r := 0], map[], map[], map[]);
    BlockSound(empty, r, TREE_SIZE, Allocator);
    WithBlock(empty, r, TREE_SIZE, Allocator)
  }

  ghost function UserBlocks(st: Store): set<Ptr> {
    set p | p in st.owner && st.owner[p] == User
  }

  ghost predicate UsedTo(offs: map<Region, nat>)
    reads offs.Keys`off
  {
    forall r :: r in offs ==> r.off == offs[r]
  }

  /** The list head of every size is in memory. */
  ghost predicate Heads(groups: map<int, SizeGroup>, tops: map<nat, Ptr>)
    reads groups.Values`top
  {
    && (forall s: nat :: s in tops <==> s in groups)
    && forall s :: s in groups ==> s >= 0 && groups[s].size == s && groups[s].top == tops[s]
  }

  lemma HeadOf(groups: map<int, SizeGroup>, tops: map<nat, Ptr>, size: nat)
    requires Heads(groups, tops) && size in groups
    ensures size in tops && groups[size].top == tops[size] && HeadsBut(groups, tops, size) == true
    ensures forall s :: s in groups && s != size ==> groups[s] != groups[size]
  {}

  /** As Heads, for all sizes but one. */
  ghost predicate HeadsBut(groups: map<int, SizeGroup>, tops: map<nat, Ptr>, size: nat)
    reads (set s | s in groups && s != size :: groups[s])`top
  {
    && size in groups && groups[size].size == size
    && (forall s: nat :: s in tops <==> s in groups)
    && forall s :: s in groups && s != size ==> s >= 0 && groups[s].size == s && groups[s].top == tops[s]
  }

  lemma HeadMoved(groups: map<int, SizeGroup>, tops: map<nat, Ptr>, size: nat)
    requires HeadsBut(groups, tops, size)
    ensures Heads(groups, tops[size := groups[size].top])
  {}

  /** Every object has a block in the allocator's own hands, no two the same. */
  ghost predicate Apartments(homes: map<object, Ptr>, st: Store) {
    && (forall o :: o in homes ==> homes[o] in st.carved && homes[o] in st.owner && st.owner[homes[o]] == Allocator)
    && (forall o, p :: o in homes && p in homes && o != p ==> homes[o] != homes[p])
  }

  ghost predicate Houses(homes: map<object, Ptr>, carved: map<Ptr, nat>, o: object, size: nat) {
    o in homes && homes[o] in carved && carved[homes[o]] == size
  }

  ghost predicate HousesAll(homes: map<object, Ptr>, carved: map<Ptr, nat>, tree: AvlTree, groups: map<int, SizeGroup>,
                            nodes: seq<Node>) {
    && Houses(homes, carved, tree, TREE_SIZE)
    && (forall s :: s in groups ==> Houses(homes, carved, groups[s], GROUP_SIZE))
    && (forall n :: n in nodes ==> Houses(homes, carved, n, NODE_SIZE))
  }

  /** Blocks stay, and the allocator's own blocks stay its own. */
  ghost predicate Keeps(st: Store, st': Store) {
    && (forall p :: p in st.carved ==> p in st'.carved && st'.carved[p] == st.carved[p])
    && (forall p :: p in st.owner && st.owner[p] == Allocator ==> p in st'.owner && st'.owner[p] == Allocator)
  }

  lemma HousedKept(homes: map<object, Ptr>, st: Store, st': Store, tree: AvlTree, groups: map<int, SizeGroup>,
                   nodes: seq<Node>)
    requires Keeps(st, st') && Apartments(homes, st) && HousesAll(homes, st.carved, tree, groups, nodes)
    ensures Apartments(homes, st') && HousesAll(homes, st'.carved, tree, groups, nodes)
  {
    forall o, size | Houses(homes, st.carved, o, size) ensures Houses(homes, st'.carved, o, size) {}
  }

  lemma HandedKeeps(st: Store, p: Ptr, size: nat, who: Owner, st': Store)
    requires Handed(st, p, size, who, st') && Sound(st)
    ensures Keeps(st, st')
  {}
}
