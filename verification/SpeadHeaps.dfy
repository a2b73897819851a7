/**
The second reassembly path: packets of a heap kept in a linked list sorted by payload offset, a completeness test over
the list, and the extraction of items byte by byte with one forward cursor.

In contracts `P(..) == true` means P(..): compared with `true`, a predicate is passed on as a whole instead of being
taken apart at every call.
 */
module SpeadHeaps {
  import opened Sequences
  import opened SpeadLayout
  import Bits
  import opened HeapStore
  import opened Reassembly
  import opened TableOrder

  const ERR := -1

  /** A packet whose header is unpacked; next links it into a heap. */
  class HeapPacket {
    const heap_cnt: int
    const heap_len: int
    const payload_off: nat
    const items: seq<Pointer>
    const payload: seq<Byte>
    var next: HeapPacket?

    constructor (heap_cnt: int, heap_len: int, payload_off: nat, items: seq<Pointer>, payload: seq<Byte>)
      ensures this.heap_cnt == heap_cnt && this.heap_len == heap_len && this.payload_off == payload_off
      ensures this.items == items && this.payload == payload && next == null
    {
      this.heap_cnt, this.heap_len, this.payload_off, this.items, this.payload := heap_cnt, heap_len, payload_off,
        items, payload;
      next := null;
    }

    function End(): nat {
      payload_off + |payload|
    }
  }

  // ---- the list as a sequence

  ghost predicate Linked(ps: seq<HeapPacket>)
    reads ps
  {
    && (forall i, j :: 0 <= i < j < |ps| ==> ps[i] != ps[j])
    && (forall i :: 0 <= i < |ps| - 1 ==> ps[i].next == ps[i + 1])
    && (ps != [] ==> ps[|ps| - 1].next == null)
  }

  predicate Sorted(ps: seq<HeapPacket>) {
    forall i, j :: 0 <= i < j < |ps| ==> ps[i].payload_off <= ps[j].payload_off
  }

  /** Each packet starts where the one before it ends, and the last ends at the heap length. */
  predicate Whole(ps: seq<HeapPacket>, heapLen: int) {
    && (forall i :: 0 <= i < |ps| - 1 ==> ps[i].End() == ps[i + 1].payload_off)
    && (ps != [] ==> ps[|ps| - 1].End() == heapLen)
  }

  /** The place of a new packet: in front of a head that starts later; otherwise after the head and before the first
      following packet that does not start earlier. */
  function Place(ps: seq<HeapPacket>, p: HeapPacket): (k: nat)
    ensures k <= |ps|
  {
    if ps == [] || p.payload_off < ps[0].payload_off then 0 else 1 + Skip(ps[1..], p)
  }

  /** The number of leading packets that start before p. */
  function Skip(ps: seq<HeapPacket>, p: HeapPacket): (k: nat)
    ensures k <= |ps|
    ensures forall i :: 0 <= i < k ==> ps[i].payload_off < p.payload_off
    ensures k < |ps| ==> ps[k].payload_off >= p.payload_off
  {
    if ps == [] || ps[0].payload_off >= p.payload_off then 0 else 1 + Skip(ps[1..], p)
  }

  function Inserted(ps: seq<HeapPacket>, p: HeapPacket): (r: seq<HeapPacket>)
    ensures |r| == |ps| + 1
  {
    var k := Place(ps, p);
    ps[..k] + [p] + ps[k..]
  }

  lemma PlaceFacts(ps: seq<HeapPacket>, p: HeapPacket)
    requires Sorted(ps)
    ensures var k := Place(ps, p);
            && (forall i :: 0 <= i < k ==> ps[i].payload_off <= p.payload_off)
            && (forall i :: k <= i < |ps| ==> p.payload_off <= ps[i].payload_off)
  {
    var k := Place(ps, p);
    if ps != [] && k > 0 {
      var t := ps[1..];
      forall i | 0 <= i < k ensures ps[i].payload_off <= p.payload_off { if i > 0 { assert ps[i] == t[i - 1]; } }
      if k < |ps| { assert ps[k] == t[k - 1]; }
    }
    forall i | k <= i < |ps| ensures p.payload_off <= ps[i].payload_off {
      assert ps[k].payload_off <= ps[i].payload_off;
    }
  }

  /** Insertion keeps the order and loses nothing. */
  lemma InsertedSorted(ps: seq<HeapPacket>, p: HeapPacket)
    requires Sorted(ps)
    ensures Sorted(Inserted(ps, p)) && multiset(Inserted(ps, p)) == multiset(ps) + multiset{p}
  {
    PlaceFacts(ps, p);
    hide Place;
    var k := Place(ps, p);
    SplitSorted(ps, p, k);
    assert ps == ps[..k] + ps[k..];
  }

  lemma SplitSorted(ps: seq<HeapPacket>, p: HeapPacket, k: nat)
    requires Sorted(ps) && k <= |ps|
    requires forall i :: 0 <= i < k ==> ps[i].payload_off <= p.payload_off
    requires forall i :: k <= i < |ps| ==> p.payload_off <= ps[i].payload_off
    ensures Sorted(ps[..k] + [p] + ps[k..])
  {
    var r := ps[..k] + [p] + ps[k..];
    forall i, j | 0 <= i < j < |r| ensures r[i].payload_off <= r[j].payload_off {
      var x, y := if i < k then ps[i] else if i == k then p else ps[i - 1],
        if j < k then ps[j] else if j == k then p else ps[j - 1];
      assert r[i] == x && r[j] == y;
    }
  }

  /** The list after adding packets one by one. */
  function AddedAll(s: seq<HeapPacket>): seq<HeapPacket> {
    if s == [] then [] else Inserted(AddedAll(s[..|s| - 1]), s[|s| - 1])
  }

  /** Different packets of one heap, all of which carry items. */
  ghost predicate OneHeap(pkts: seq<HeapPacket>) {
    && (forall i, j :: 0 <= i < j < |pkts| ==> pkts[i] != pkts[j])
    && forall i :: 0 <= i < |pkts| ==>
         pkts[i].items != [] && pkts[i].heap_len >= ERR && pkts[i].heap_cnt >= 0 && pkts[i].heap_cnt == pkts[0].heap_cnt
  }

  /** The heap length the packets tell: the last one that is not missing. */
  function LengthTold(pkts: seq<HeapPacket>, before: int): int {
    if pkts == [] then before
    else
      var p := pkts[|pkts| - 1];
      if p.heap_len != ERR then p.heap_len else LengthTold(pkts[..|pkts| - 1], before)
  }

  lemma LengthNext(pkts: seq<HeapPacket>, k: nat, before: int)
    requires k < |pkts|
    ensures LengthTold(pkts[..k + 1], before)
         == if pkts[k].heap_len != ERR then pkts[k].heap_len else LengthTold(pkts[..k], before)
  {
    assert pkts[..k + 1][..k] == pkts[..k];
  }

  lemma NothingAdded(pkts: seq<HeapPacket>, before: int)
    ensures AddedAll(pkts[..0]) == [] && LengthTold(pkts[..0], before) == before && pkts[..|pkts|] == pkts
  {}

  lemma NotAddedYet(pkts: seq<HeapPacket>, k: nat)
    requires k < |pkts| && OneHeap(pkts)
    ensures forall i :: k <= i < |pkts| ==> pkts[i] !in AddedAll(pkts[..k])
    ensures forall i :: k < i < |pkts| ==> pkts[i] != pkts[k]
    ensures forall p :: p in AddedAll(pkts[..k]) ==> p in pkts
    ensures pkts[k].items != [] && pkts[k].heap_len >= ERR && pkts[k].heap_cnt >= 0
    ensures pkts[k].heap_cnt == pkts[0].heap_cnt
  {
    AddedAllSorted(pkts[..k]);
    hide AddedAll, Sorted;
    var added := AddedAll(pkts[..k]);
    forall p | p in added ensures p in pkts[..k] {
      assert p in multiset(added) && p in multiset(pkts[..k]);
    }
  }

  lemma AddedNext(pkts: seq<HeapPacket>, k: nat)
    requires k < |pkts|
    ensures AddedAll(pkts[..k + 1]) == Inserted(AddedAll(pkts[..k]), pkts[k])
    ensures k == 0 ==> AddedAll(pkts[..k + 1]) == [pkts[k]]
  {
    assert pkts[..k + 1][..k] == pkts[..k];
  }

  lemma {:induction false} AddedAllSorted(s: seq<HeapPacket>)
    ensures Sorted(AddedAll(s)) && multiset(AddedAll(s)) == multiset(s)
  {
    if s != [] {
      var n := |s| - 1;
      AddedAllSorted(s[..n]);
      InsertedSorted(AddedAll(s[..n]), s[n]);
      assert s == s[..n] + [s[n]];
    }
  }

  /** No two packets start at the same offset. */
  predicate DistinctOffsets(s: seq<HeapPacket>) {
    forall i, j :: 0 <= i < j < |s| ==> s[i].payload_off != s[j].payload_off
  }

  lemma HeadIsFirst(a: seq<HeapPacket>, x: HeapPacket)
    requires Sorted(a) && x in multiset(a)
    ensures a != [] && a[0].payload_off <= x.payload_off
  {
    var j :| 0 <= j < |a| && a[j] == x;
  }

  lemma SameHead(a: seq<HeapPacket>, b: seq<HeapPacket>)
    requires Sorted(a) && Sorted(b) && multiset(a) == multiset(b) && DistinctOffsets(a) && a != []
    ensures b != [] && a[0] == b[0]
  {
    assert a[0] in multiset(b);
    HeadIsFirst(b, a[0]);
    assert b[0] in multiset(a);
    HeadIsFirst(a, b[0]);
    var j :| 0 <= j < |a| && a[j] == b[0];
    assert j == 0;
  }

  lemma TailOf(a: seq<HeapPacket>)
    requires a != [] && Sorted(a)
    ensures Sorted(a[1..]) && multiset(a[1..]) == multiset(a) - multiset{a[0]}
      && (DistinctOffsets(a) ==> DistinctOffsets(a[1..]))
  {
    assert a == [a[0]] + a[1..];
  }

  /** A sorted list of packets with distinct offsets is determined by its contents. */
  lemma {:induction false} SortedUnique(a: seq<HeapPacket>, b: seq<HeapPacket>)
    requires Sorted(a) && Sorted(b) && multiset(a) == multiset(b) && DistinctOffsets(a)
    ensures a == b
  {
    hide *;
    if a == [] {
      assert |multiset(b)| == |b|;
    } else {
      SameHead(a, b);
      TailOf(a);
      TailOf(b);
      SortedUnique(a[1..], b[1..]);
      assert a == [a[0]] + a[1..] && b == [b[0]] + b[1..];
    }
  }

  lemma {:induction false} DistinctMoves(s: seq<HeapPacket>, t: seq<HeapPacket>)
    requires DistinctOffsets(s) && multiset(s) == multiset(t)
    ensures DistinctOffsets(t)
  {
    forall i, j | 0 <= i < j < |t| ensures t[i].payload_off != t[j].payload_off {
      TwoPositions(t, i, j);
      var k, l := FindTwo(s, t[i], t[j]);
    }
  }

  /** Packets with distinct offsets end up in the same list in whatever order they come. */
  lemma AnyOrder(s: seq<HeapPacket>, t: seq<HeapPacket>)
    requires DistinctOffsets(s) && multiset(s) == multiset(t)
    ensures AddedAll(s) == AddedAll(t)
  {
    AddedAllSorted(s);
    AddedAllSorted(t);
    DistinctMoves(s, AddedAll(s));
    SortedUnique(AddedAll(s), AddedAll(t));
  }

  // ---- the bytes of the heap

  /** The first packet that ends after absolute offset a. */
  function FirstPast(ps: seq<HeapPacket>, a: int): (k: nat)
    ensures k <= |ps|
    ensures forall i :: 0 <= i < k ==> ps[i].End() <= a
    ensures k < |ps| ==> ps[k].End() > a
  {
    if ps == [] || ps[0].End() > a then 0 else 1 + FirstPast(ps[1..], a)
  }

  /** The byte found for absolute offset a. */
  function ByteAt(ps: seq<HeapPacket>, a: int): Option<Byte> {
    var k := FirstPast(ps, a);
    if k < |ps| && ps[k].payload_off <= a then Some(ps[k].payload[a - ps[k].payload_off]) else None
  }

  /** Packet p covers absolute offset a. */
  predicate Covers(p: HeapPacket, a: int) {
    p.payload_off <= a < p.End()
  }

  /** Packets that do not overlap: each ends before the next one starts. */
  predicate Apart(ps: seq<HeapPacket>) {
    forall i, j :: 0 <= i < j < |ps| ==> ps[i].End() <= ps[j].payload_off
  }

  /**
  In a sorted list without overlaps the byte is that of the packet that covers the offset, and is missing exactly when
  no packet covers it.
   */
  lemma ByteOfCover(ps: seq<HeapPacket>, a: int)
    requires Apart(ps)
    ensures forall p :: p in ps && Covers(p, a) ==> ByteAt(ps, a) == Some(p.payload[a - p.payload_off])
    ensures (forall p :: p in ps ==> !Covers(p, a)) ==> ByteAt(ps, a) == None
  {
    var k := FirstPast(ps, a);
    forall p | p in ps && Covers(p, a) ensures k < |ps| && ps[k] == p {
      var j :| 0 <= j < |ps| && ps[j] == p;
      assert k <= j && ps[k].End() > a >= ps[j].payload_off;
      assert k == j;
    }
    if k < |ps| && ps[k].payload_off <= a { assert ps[k] in ps && Covers(ps[k], a); }
  }

  // ---- items

  /** An item taken out of a heap; len is negative, and val empty, when the end of the item came before its start. */
  datatype SpeadItem = SpeadItem(is_valid: bool, id: nat, val: seq<Byte>, len: int)

  /** Item pointers that do not become items. The heap length is not among them. */
  predicate Skipped(id: nat) {
    id == HEAP_CNT_ID || id == PAYLOAD_OFF_ID || id == PAYLOAD_LEN_ID || id == STREAM_CTRL_ID
  }

  function ItemLists(ps: seq<HeapPacket>): (ls: seq<seq<Pointer>>)
    ensures |ls| == |ps|
  {
    seq(|ps|, i requires 0 <= i < |ps| => ps[i].items)
  }

  /** The item pointers of all packets, packet by packet. */
  function AllItems(ps: seq<HeapPacket>): seq<Pointer> {
    Concat(ItemLists(ps))
  }

  function ByteOr0(b: Option<Byte>): Byte {
    if b.Some? then b.value else 0
  }

  /** The bytes of the heap from offset off on, zero where none has arrived. */
  function Bytes(ps: seq<HeapPacket>, off: int, len: nat): (b: seq<Byte>)
    ensures |b| == len
  {
    seq<Byte>(len, o => ByteOr0(ByteAt(ps, off + o)))
  }

  predicate AllThere(ps: seq<HeapPacket>, off: int, len: nat) {
    forall a :: off <= a < off + len ==> ByteAt(ps, a).Some?
  }

  /** The item that pointer k of the heap stands for. */
  function ItemOf(ps: seq<HeapPacket>, heapLen: nat, k: nat): SpeadItem
    requires k < |AllItems(ps)|
  {
    var ptrs := AllItems(ps);
    var p := ptrs[k];
    if p.mode != DIRECT then SpeadItem(true, p.id, ToBytes(p.addr, 5), 5)
    else
      var len := NextDirect(ptrs, k + 1, heapLen) - p.addr;
      if len < 0 then SpeadItem(false, p.id, [], len)
      else SpeadItem(AllThere(ps, p.addr, len), p.id, Bytes(ps, p.addr, len), len)
  }

  /** The items of the first k pointers. */
  function ItemsOf(ps: seq<HeapPacket>, heapLen: nat, k: nat): seq<SpeadItem>
    requires k <= |AllItems(ps)|
  {
    if k == 0 then []
    else ItemsOf(ps, heapLen, k - 1) + if Skipped(AllItems(ps)[k - 1].id) then [] else [ItemOf(ps, heapLen, k - 1)]
  }

  // ---- what the items are, said without computing them

  /** The item is what pointer k stands for, and the heap it is taken from ends at heapLen. */
  ghost predicate Represents(item: SpeadItem, ps: seq<HeapPacket>, heapLen: nat, k: nat)
    requires k < |AllItems(ps)|
  {
    var p := AllItems(ps)[k];
    && item.id == p.id
    && if p.mode != DIRECT then
         item.is_valid && item.len == |item.val| == 5 && (p.addr < ADDR_LIMIT ==> FromBytes(item.val) == p.addr)
       else
         exists e: nat :: EndsAt(AllItems(ps), k, heapLen, e) && Holds(item, ps, p.addr, e)
  }

  /** A direct item from offset a to offset e: the bytes that have arrived, zero for the others. */
  ghost predicate Holds(item: SpeadItem, ps: seq<HeapPacket>, a: nat, e: nat) {
    && item.len == e - a
    && if e < a then item.val == [] && !item.is_valid
       else
         && |item.val| == e - a
         && (item.is_valid <==> forall o :: a <= o < e ==> ByteAt(ps, o).Some?)
         && forall o :: 0 <= o < e - a ==>
              item.val[o] == match ByteAt(ps, a + o) case Some(b) => b case None => 0
  }

  /** The items stand for the pointers at the given places, which are those of the first n whose ids are kept. */
  ghost predicate TakenAt(items: seq<SpeadItem>, places: seq<nat>, ps: seq<HeapPacket>, heapLen: nat, n: nat)
    requires n <= |AllItems(ps)|
  {
    && |places| == |items|
    && (forall i, j :: 0 <= i < j < |places| ==> places[i] < places[j])
    && (forall j :: 0 <= j < |places| ==> places[j] < n)
    && (forall k :: 0 <= k < n ==> (k in places <==> AllItems(ps)[k].id !in {1, 3, 4, 6}))
    && (forall j :: 0 <= j < |items| ==> Represents(items[j], ps, heapLen, places[j]))
  }

  /** One item for each pointer that is not a heap count, an offset, a payload length or a control word, in order. */
  ghost predicate Taken(items: seq<SpeadItem>, ps: seq<HeapPacket>, heapLen: nat) {
    exists places :: TakenAt(items, places, ps, heapLen, |AllItems(ps)|)
  }

  lemma BytesHold(ps: seq<HeapPacket>, a: nat, e: nat, id: nat)
    requires a <= e
    ensures Holds(SpeadItem(AllThere(ps, a, e - a), id, Bytes(ps, a, e - a), e - a), ps, a, e)
  {
    hide ByteAt;
    var b := Bytes(ps, a, e - a);
    forall o | 0 <= o < e - a ensures b[o] == match ByteAt(ps, a + o) case Some(v) => v case None => 0 {
      assert b[o] == ByteOr0(ByteAt(ps, a + o));
    }
  }

  lemma ItemRepresents(ps: seq<HeapPacket>, heapLen: nat, k: nat)
    requires k < |AllItems(ps)|
    ensures Represents(ItemOf(ps, heapLen, k), ps, heapLen, k)
  {
    hide AllItems, ByteAt, EndsAt, ToBytes, FromBytes, Bytes, AllThere;
    var p := AllItems(ps)[k];
    if p.mode != DIRECT {
      assert Pow256(5) == ADDR_LIMIT;
      if p.addr < ADDR_LIMIT { BytesRoundTrip(p.addr, 5); }
    } else {
      var e := NextDirect(AllItems(ps), k + 1, heapLen);
      NextDirectEnds(AllItems(ps), k, k + 1, heapLen);
      if p.addr <= e { BytesHold(ps, p.addr, e, p.id); }
      assert EndsAt(AllItems(ps), k, heapLen, e) && Holds(ItemOf(ps, heapLen, k), ps, p.addr, e);
    }
  }

  lemma TakenSkip(items: seq<SpeadItem>, places: seq<nat>, ps: seq<HeapPacket>, heapLen: nat, n: nat)
    requires n < |AllItems(ps)| && TakenAt(items, places, ps, heapLen, n) && AllItems(ps)[n].id in {1, 3, 4, 6}
    ensures TakenAt(items, places, ps, heapLen, n + 1)
  {
    hide Represents, AllItems;
  }

  lemma TakenPush(items: seq<SpeadItem>, places: seq<nat>, ps: seq<HeapPacket>, heapLen: nat, n: nat, item: SpeadItem)
    requires n < |AllItems(ps)| && TakenAt(items, places, ps, heapLen, n) && AllItems(ps)[n].id !in {1, 3, 4, 6}
    requires Represents(item, ps, heapLen, n)
    ensures TakenAt(items + [item], places + [n], ps, heapLen, n + 1)
  {
    hide Represents, AllItems;
    var qs := places + [n];
    assert forall j :: 0 <= j < |places| ==> qs[j] == places[j];
    assert qs[|places|] == n;
    assert forall i :: i in qs <==> i in places || i == n;
  }

  lemma {:induction false} ItemsTaken(ps: seq<HeapPacket>, heapLen: nat, n: nat) returns (places: seq<nat>)
    requires n <= |AllItems(ps)|
    ensures TakenAt(ItemsOf(ps, heapLen, n), places, ps, heapLen, n)
  {
    hide AllItems, TakenAt, Represents, ItemOf;
    if n == 0 {
      places := [];
      NothingTaken(ps, heapLen);
    } else {
      places := ItemsTaken(ps, heapLen, n - 1);
      var items := ItemsOf(ps, heapLen, n - 1);
      if Skipped(AllItems(ps)[n - 1].id) {
        assert ItemsOf(ps, heapLen, n) == items;
        TakenSkip(items, places, ps, heapLen, n - 1);
      } else {
        ItemRepresents(ps, heapLen, n - 1);
        TakenPush(items, places, ps, heapLen, n - 1, ItemOf(ps, heapLen, n - 1));
        places := places + [n - 1];
      }
    }
  }

  lemma NothingTaken(ps: seq<HeapPacket>, heapLen: nat)
    ensures TakenAt([], [], ps, heapLen, 0)
  {}

  lemma {:induction false} SkipIs(ps: seq<HeapPacket>, p: HeapPacket, k: nat)
    requires k <= |ps| && (forall i :: 0 <= i < k ==> ps[i].payload_off < p.payload_off)
    requires k < |ps| ==> ps[k].payload_off >= p.payload_off
    ensures Skip(ps, p) == k
  {
    if k > 0 { SkipIs(ps[1..], p, k - 1); }
  }

  /** The list after linking p in behind packet k. */
  lemma LinkedAfter(ps: seq<HeapPacket>, k: nat, p: HeapPacket)
    requires k < |ps| && p !in ps && (forall i, j :: 0 <= i < j < |ps| ==> ps[i] != ps[j])
    requires forall i :: 0 <= i < |ps| - 1 && i != k ==> ps[i].next == ps[i + 1]
    requires k < |ps| - 1 ==> ps[|ps| - 1].next == null
    requires ps[k].next == p && p.next == if k + 1 < |ps| then ps[k + 1] else null
    ensures Linked(ps[..k + 1] + [p] + ps[k + 1..])
  {
    var r := ps[..k + 1] + [p] + ps[k + 1..];
    assert forall i :: 0 <= i < |r| ==> r[i] == if i <= k then ps[i] else if i == k + 1 then p else ps[i - 1];
  }

  lemma PlaceIs(ps: seq<HeapPacket>, p: HeapPacket, k: nat)
    requires ps != [] && ps[0].payload_off <= p.payload_off && Skip(ps[1..], p) == k
    ensures Place(ps, p) == k + 1
  {}

  class SpeadHeap {
    var is_valid: bool
    var heap_cnt: int
    var heap_len: int
    var has_all_packets: int
    var head_pkt: HeapPacket?
    var last_pkt: HeapPacket?
    var items: seq<SpeadItem>
    ghost var packets: seq<HeapPacket>

    /** The linked list from head_pkt to last_pkt is packets. */
    ghost predicate Listed()
      reads this`packets, this`head_pkt, this`last_pkt, packets
    {
      && Linked(packets)
      && head_pkt == (if packets == [] then null else packets[0])
      && last_pkt == (if packets == [] then null else packets[|packets| - 1])
    }

    ghost predicate Valid()
      reads this`packets, this`head_pkt, this`last_pkt, this`heap_cnt, this`heap_len, this`has_all_packets, packets
    {
      && Listed() && Sorted(packets)
      && (heap_cnt >= 0 ==> packets != []) && heap_len >= ERR && Remembered()
    }

    /** The remembered answer, if any, is right. */
    ghost predicate Remembered()
      reads this`packets, this`heap_len, this`has_all_packets
    {
      has_all_packets == ERR
      || (packets != [] && heap_len != ERR && has_all_packets == if Whole(packets, heap_len) then 1 else 0)
    }

    constructor ()
      ensures Valid() && packets == [] && heap_cnt == ERR && heap_len == ERR && items == []
      ensures !is_valid && has_all_packets == ERR && head_pkt == null && last_pkt == null
    {
      is_valid, heap_cnt, heap_len, has_all_packets, head_pkt, last_pkt, items := false, ERR, ERR, ERR, null, null, [];
      packets := [];
    }

    lemma ListWalk(k: nat)
      requires Listed() == true && k < |packets|
      ensures packets[k].next == if k + 1 < |packets| then packets[k + 1] else null
    {
      assert k < |packets| - 1 ==> packets[k].next == packets[k + 1];
    }

    /** pkt is the packet at index k of the list, null at its end. */
    ghost predicate At(pkt: HeapPacket?, k: int)
      reads this`packets
    {
      0 <= k <= |packets| && pkt == if k < |packets| then packets[k] else null
    }

    lemma Head()
      requires Listed() == true
      ensures At(head_pkt, 0)
    {}

    method Next(pkt: HeapPacket, ghost k: int) returns (next: HeapPacket?)
      requires Listed() == true && At(pkt, k)
      ensures k < |packets| && pkt == packets[k] && At(next, k + 1) == true
    {
      ListWalk(k);
      next := pkt.next;
    }

    /** The packet to link pkt in behind, when it does not go in front. */
    method FindPlace(pkt: HeapPacket) returns (cur: HeapPacket, ghost k: nat)
      requires Listed() == true && packets != [] && pkt.payload_off >= packets[0].payload_off
      ensures k < |packets| && cur == packets[k] && Place(packets, pkt) == k + 1
    {
      Head();
      cur, k := head_pkt, 0;
      hide Listed, Place;
      ListWalk(0);
      while cur.next != null && cur.next.payload_off < pkt.payload_off
        invariant 0 <= k < |packets| && cur == packets[k]
        invariant cur.next == if k + 1 < |packets| then packets[k + 1] else null
        invariant forall i :: 1 <= i <= k ==> packets[i].payload_off < pkt.payload_off
        decreases |packets| - k
      {
        cur := cur.next;
        k := k + 1;
        ListWalk(k);
      }
      SkipIs(packets[1..], pkt, k);
      PlaceIs(packets, pkt, k);
    }

    /** Puts a packet at its place in the list. */
    method LinkIn(pkt: HeapPacket)
      requires Listed() == true && packets != [] && pkt !in packets && pkt.next == null
      modifies this`head_pkt, this`last_pkt, this`packets, packets, pkt
      ensures packets == Inserted(old(packets), pkt) && Listed() == true
    {
      Head();
      hide Listed;
      if pkt.payload_off < head_pkt.payload_off {
        LinkFront(pkt);
      } else {
        var cur, k := FindPlace(pkt);
        LinkBehind(pkt, cur, k);
      }
    }

    method LinkFront(pkt: HeapPacket)
      requires Listed() && packets != [] && pkt !in packets && pkt.next == null
        && pkt.payload_off < packets[0].payload_off
      modifies this`head_pkt, this`packets, pkt
      ensures packets == Inserted(old(packets), pkt) && Listed() == true
    {
      ghost var ps := packets;
      pkt.next := head_pkt;
      head_pkt := pkt;
      packets := [pkt] + ps;
      assert ps[..0] + [pkt] + ps[0..] == packets;
    }

    method LinkBehind(pkt: HeapPacket, cur: HeapPacket, ghost k: nat)
      requires Listed() && k < |packets| && cur == packets[k] && pkt !in packets && Place(packets, pkt) == k + 1
      modifies this`last_pkt, this`packets, cur, pkt
      ensures packets == Inserted(old(packets), pkt) && Listed() == true
    {
      hide Place;
      ghost var ps := packets;
      ListWalk(k);
      pkt.next := cur.next;
      cur.next := pkt;
      if pkt.next == null { last_pkt := pkt; }
      packets := ps[..k + 1] + [pkt] + ps[k + 1..];
      LinkedAfter(ps, k, pkt);
    }

    /** Whether the packets follow one another up to the heap length; the answer is remembered. */
    method GotAllPackets() returns (r: int)
      requires Listed() == true && Remembered()
      modifies this`has_all_packets
      ensures Listed() == true && Remembered()
      ensures r == if packets != [] && heap_len != ERR && Whole(packets, heap_len) then 1 else 0
    {
      hide Listed;
      Head();
      var pkt := head_pkt;
      if heap_len == ERR || pkt == null { return 0; }
      if has_all_packets != ERR { return has_all_packets; }
      has_all_packets := 0;
      ghost var k := 0;
      ListWalk(0);
      while pkt.next != null
        invariant 0 <= k < |packets| && pkt == packets[k] && Listed() == true
        invariant pkt.next == if k + 1 < |packets| then packets[k + 1] else null
        invariant has_all_packets == 0
        invariant forall i :: 0 <= i < k ==> packets[i].End() == packets[i + 1].payload_off
        decreases |packets| - k
      {
        if pkt.payload_off + |pkt.payload| != pkt.next.payload_off { return 0; }
        pkt := pkt.next;
        k := k + 1;
        ListWalk(k);
      }
      if pkt.payload_off + |pkt.payload| != heap_len { return 0; }
      has_all_packets := 1;
      return 1;
    }

    /**
    Links a packet in; the answer is -1 for a packet without items or of another heap, else whether the heap is whole.
     */
    method AddPacket(pkt: HeapPacket) returns (r: int)
      requires Valid() && pkt !in packets && pkt.next == null && pkt.heap_len >= ERR
      modifies this, packets, pkt
      ensures Valid()
      ensures var rejected := pkt.items == [] || (old(heap_cnt) >= 0 && old(heap_cnt) != pkt.heap_cnt);
              if rejected then
                r == ERR && packets == old(packets) && heap_cnt == old(heap_cnt) && heap_len == old(heap_len)
              else
                && packets == (if old(heap_cnt) < 0 then [pkt] else Inserted(old(packets), pkt))
                && heap_cnt == pkt.heap_cnt && heap_len == (if pkt.heap_len != ERR then pkt.heap_len else old(heap_len))
                && r == (if heap_len != ERR && Whole(packets, heap_len) then 1 else 0)
    {
      hide Inserted, Whole;
      if pkt.items == [] { return ERR; }
      if heap_cnt < 0 {
        heap_cnt := pkt.heap_cnt;
        head_pkt := pkt;
        last_pkt := pkt;
        packets := [pkt];
      } else {
        if heap_cnt != pkt.heap_cnt { return ERR; }
        InsertedSorted(packets, pkt);
        hide Inserted, Sorted, Whole;
        LinkIn(pkt);
      }
      hide Sorted, Linked;
      if pkt.heap_len != ERR { heap_len := pkt.heap_len; }
      has_all_packets := ERR;
      r := GotAllPackets();
    }

    /**
    All packets of one heap, in whatever order they come: the list is that of AddedAll, which depends on no order.
     */
    method AddPackets(pkts: seq<HeapPacket>) returns (r: int)
      requires Valid() == true && packets == [] && heap_cnt < 0 && OneHeap(pkts) == true
      requires pkts != [] && forall i :: 0 <= i < |pkts| ==> pkts[i].next == null
      modifies this, pkts
      ensures Valid() == true && packets == AddedAll(pkts) && heap_cnt == pkts[0].heap_cnt
      ensures heap_len == LengthTold(pkts, old(heap_len))
      ensures r == if heap_len != ERR && Whole(packets, heap_len) then 1 else 0
    {
      hide *;
      NothingAdded(pkts, heap_len);
      r := 0;
      for k := 0 to |pkts|
        invariant Valid() == true && packets == AddedAll(pkts[..k])
        invariant if k == 0 then heap_cnt < 0 else heap_cnt == pkts[0].heap_cnt
        invariant heap_len == LengthTold(pkts[..k], old(heap_len))
        invariant k > 0 ==> r == if heap_len != ERR && Whole(packets, heap_len) then 1 else 0
        invariant forall i :: k <= i < |pkts| ==> pkts[i].next == null
      {
        r := AddNext(pkts, k, set p | p in pkts);
      }
    }

    method AddNext(pkts: seq<HeapPacket>, k: nat, ghost all: set<HeapPacket>) returns (r: int)
      requires Valid() == true && OneHeap(pkts) == true && k < |pkts| && packets == AddedAll(pkts[..k])
      requires if k == 0 then heap_cnt < 0 else heap_cnt == pkts[0].heap_cnt
      requires (forall i :: k <= i < |pkts| ==> pkts[i].next == null) && forall p :: p in pkts ==> p in all
      modifies this, all
      ensures Valid() == true && packets == AddedAll(pkts[..k + 1]) && heap_cnt == pkts[0].heap_cnt
      ensures forall before: int :: old(heap_len) == LengthTold(pkts[..k], before) ==>
        heap_len == LengthTold(pkts[..k + 1], before)
      ensures r == if heap_len != ERR && Whole(packets, heap_len) then 1 else 0
      ensures forall i :: k < i < |pkts| ==> pkts[i].next == null
    {
      hide *;
      NotAddedYet(pkts, k);
      AddedNext(pkts, k);
      forall before: int ensures LengthTold(pkts[..k + 1], before)
        == if pkts[k].heap_len != ERR then pkts[k].heap_len else LengthTold(pkts[..k], before)
      {
        LengthNext(pkts, k, before);
      }
      var pkt := pkts[k];
      assert pkt in pkts;
      assert forall i :: 0 <= i < |packets| ==> packets[i] in all;
      r := AddPacket(pkt);
    }

    /**
    The length of the direct item at pointer i of packet k: up to the next direct item, or to the end of the heap.
     */
    method ItemLength(pkt1: HeapPacket, ghost k: nat, i: nat, off: nat) returns (len: int)
      requires Listed() == true && At(pkt1, k) && i < |pkt1.items| && heap_len >= 0
      ensures len == NextDirect(AllItems(packets), |AllItems(packets[..k])| + i + 1, heap_len) - off
    {
      ghost var m := k;
      var pkt2: HeapPacket?, j := pkt1, i + 1;
      hide AllItems, Listed, NextDirect;
      ItemPlace(packets, k);
      ghost var want := NextDirect(AllItems(packets), |AllItems(packets[..k])| + i + 1, heap_len);
      while pkt2 != null
        invariant At(pkt2, m)
        invariant if pkt2 != null then 0 <= j <= |pkt2.items|
          && NextDirect(AllItems(packets), |AllItems(packets[..m])| + j, heap_len) == want
                  else want == heap_len
        decreases |packets| - m
      {
        var found;
        found, j := SearchPacket(pkt2, m, j, want);
        if found { return pkt2.items[j].addr - off; }
        pkt2 := Next(pkt2, m);
        m, j := m + 1, 0;
      }
      return heap_len - off;
    }

    /** Looks for a direct pointer in one packet. */
    method SearchPacket(pkt: HeapPacket, ghost m: nat, j0: int, ghost want: int) returns (found: bool, j: int)
      requires At(pkt, m) && 0 <= j0 <= |pkt.items| && heap_len >= 0
      requires NextDirect(AllItems(packets), |AllItems(packets[..m])| + j0, heap_len) == want
      ensures found ==> 0 <= j < |pkt.items| && want == pkt.items[j].addr
      ensures !found && m + 1 < |packets| ==>
        NextDirect(AllItems(packets), |AllItems(packets[..m + 1])|, heap_len) == want
      ensures !found && m + 1 == |packets| ==> want == heap_len
    {
      ItemPlace(packets, m);
      j := NextDirectHere(pkt.items, j0, AllItems(packets), |AllItems(packets[..m])|, heap_len);
      found := j < |pkt.items|;
    }

    /** Moves the cursor on to the first packet that ends after absolute offset a. */
    method MoveOn(pkt0: HeapPacket?, ghost k0: int, a: int) returns (pkt: HeapPacket?, ghost k: int)
      requires Listed() == true && At(pkt0, k0) && EndBy(packets, k0, a)
      ensures At(pkt, k) && EndBy(packets, k, a) == true && (pkt != null ==> pkt.payload_off + |pkt.payload| > a)
      ensures ByteAt(packets, a)
           == if pkt != null && pkt.payload_off <= a then Some(pkt.payload[a - pkt.payload_off]) else None
    {
      hide Listed;
      pkt, k := pkt0, k0;
      while pkt != null && pkt.payload_off + |pkt.payload| <= a
        invariant At(pkt, k) && EndBy(packets, k, a)
        decreases |packets| - k
      {
        pkt := Next(pkt, k);
        k := k + 1;
      }
      ByteIs(packets, a, k);
    }

    /** The byte for absolute offset a, the cursor moved on to it; zero where none has arrived. */
    method ReadByte(pkt0: HeapPacket?, ghost k0: int, a: int)
      returns (pkt: HeapPacket?, ghost k: int, b: Byte, there: bool)
      requires Listed() == true && At(pkt0, k0) == true && EndBy(packets, k0, a) == true
      ensures At(pkt, k) == true && EndBy(packets, k, a + 1) == true
      ensures b == ByteOr0(ByteAt(packets, a)) && there == ByteAt(packets, a).Some?
    {
      pkt, k := MoveOn(pkt0, k0, a);
      EndByMore(packets, k, a);
      if pkt == null || pkt.payload_off > a {
        b, there := 0, false;
      } else {
        b, there := pkt.payload[a - pkt.payload_off], true;
      }
    }

    /** The bytes of an item, dug out of the payloads with a cursor that only moves forward. */
    method ReadBytes(off: nat, len: nat) returns (val: seq<Byte>, valid: bool)
      requires Listed() == true
      ensures val == Bytes(packets, off, len) && valid == AllThere(packets, off, len)
    {
      hide *;
      Head();
      NoBytesYet(packets, off);
      var pkt2 := head_pkt;
      ghost var k := 0;
      val, valid := [], true;
      EndByStart(packets, off);
      for o := 0 to len
        invariant At(pkt2, k) == true && EndBy(packets, k, off + o) == true
        invariant val == Bytes(packets, off, o) && valid == AllThere(packets, off, o)
      {
        var b, there;
        pkt2, k, b, there := ReadByte(pkt2, k, off + o);
        OneMoreByte(packets, off, o);
        val := val + [b];
        valid := valid && there;
      }
    }

    /** Takes one item out of the heap. */
    method MakeItem(pkt1: HeapPacket, ghost k: nat, i: nat) returns (item: SpeadItem)
      requires Listed() == true && At(pkt1, k) && i < |pkt1.items| && heap_len >= 0
      ensures |AllItems(packets[..k])| + i < |AllItems(packets)|
      ensures item == ItemOf(packets, heap_len, |AllItems(packets[..k])| + i)
    {
      hide AllItems, Listed, Bytes, AllThere, NextDirect, ToBytes;
      ItemInList(packets, k, i);
      var p := pkt1.items[i];
      if p.mode == DIRECT {
        var len := ItemLength(pkt1, k, i, p.addr);
        if len < 0 { return SpeadItem(false, p.id, [], len); }
        var val, valid := ReadBytes(p.addr, len);
        return SpeadItem(valid, p.id, val, len);
      } else {
        var val := ImmediateBytes(p.addr);
        return SpeadItem(true, p.id, val, 5);
      }
    }

    /** What the items collected so far say about the heap. */
    ghost predicate Judged(before: bool)
      reads this`items, this`is_valid
    {
      is_valid == if items == [] then before else forall i :: 0 <= i < |items| ==> items[i].is_valid
    }

    /** Links an item in; the heap is valid if all its items are. */
    method LinkItem(item: SpeadItem, ghost before: bool)
      requires Judged(before)
      modifies this`items, this`is_valid
      ensures items == old(items) + [item] && Judged(before)
    {
      is_valid := if items == [] then item.is_valid else is_valid && item.is_valid;
      items := items + [item];
      assert items[|items| - 1] == item;
      assert forall i :: 0 <= i < |items| - 1 ==> items[i] == old(items)[i];
    }

    /** Takes the items of one packet. */
    method CollectPacket(pkt1: HeapPacket, ghost k: nat, ghost before: bool)
      requires Listed() == true && At(pkt1, k) && heap_len >= 0 && Judged(before)
      requires |AllItems(packets[..k])| <= |AllItems(packets)|
      requires items == ItemsOf(packets, heap_len, |AllItems(packets[..k])|)
      modifies this`items, this`is_valid
      ensures Listed() == true && Judged(before) && |AllItems(packets[..k + 1])| <= |AllItems(packets)|
      ensures items == ItemsOf(packets, heap_len, |AllItems(packets[..k + 1])|)
    {
      hide AllItems, Listed, ItemOf, Skipped, Judged;
      ItemPlace(packets, k);
      ghost var at := |AllItems(packets[..k])|;
      for i := 0 to |pkt1.items|
        invariant Listed() == true && Judged(before) && at + i <= |AllItems(packets)|
        invariant items == ItemsOf(packets, heap_len, at + i)
      {
        ItemInList(packets, k, i);
        if Skipped(pkt1.items[i].id) { continue; }
        var item := MakeItem(pkt1, k, i);
        LinkItem(item, before);
      }
    }

    /** Takes the items out of the list; a heap of unknown length ends with its last packet. */
    method Finalize()
      requires Valid() == true
      modifies this`items, this`heap_len, this`is_valid
      ensures Valid() == true
      ensures packets == [] ==> items == old(items) && heap_len == old(heap_len) && is_valid == old(is_valid)
      ensures packets != [] ==>
                && heap_len == (if old(heap_len) == ERR then packets[|packets| - 1].End() else old(heap_len))
                && items == ItemsOf(packets, heap_len, |AllItems(packets)|) && Taken(items, packets, heap_len) == true
                && Judged(old(is_valid))
    {
      if head_pkt == null { return; }
      items := [];
      if heap_len == ERR { heap_len := last_pkt.payload_off + |last_pkt.payload|; }
      CollectItems(is_valid);
      ghost var places := ItemsTaken(packets, heap_len, |AllItems(packets)|);
      hide TakenAt;
    }

    method CollectItems(ghost before: bool)
      requires Listed() == true && heap_len >= 0 && items == [] && is_valid == before
      modifies this`items, this`is_valid
      ensures Listed() == true && items == ItemsOf(packets, heap_len, |AllItems(packets)|) && Judged(before)
    {
      hide Listed, AllItems;
      Head();
      var pkt1 := head_pkt;
      ghost var k := 0;
      NoItems(packets);
      assert items == ItemsOf(packets, heap_len, 0);
      hide ItemsOf, Judged;
      while pkt1 != null
        invariant Listed() == true && At(pkt1, k) && Judged(before)
        invariant |AllItems(packets[..k])| <= |AllItems(packets)|
        invariant items == ItemsOf(packets, heap_len, |AllItems(packets[..k])|)
        decreases |packets| - k
      {
        CollectPacket(pkt1, k, before);
        pkt1 := Next(pkt1, k);
        k := k + 1;
      }
      assert k == |packets| && packets[..k] == packets;
    }
  }

  lemma NoItems(ps: seq<HeapPacket>)
    ensures AllItems(ps[..0]) == []
  {
    assert ItemLists(ps[..0]) == [];
  }

  /** The low five bytes of an immediate pointer, most significant first. */
  method ImmediateBytes(addr: nat) returns (val: seq<Byte>)
    ensures val == ToBytes(addr, 5)
  {
    val := [];
    for o := 0 to 5
      invariant val == ToBytes(addr, 5)[..o]
    {
      ByteOfWord(addr, 5, o);
      hide ToBytes;
      val := val + [addr / Pow256(4 - o) % 256];
    }
  }

  /** The first k packets end by absolute offset a. */
  ghost predicate EndBy(ps: seq<HeapPacket>, k: int, a: int) {
    k <= |ps| && forall i :: 0 <= i < k ==> ps[i].End() <= a
  }

  lemma EndByStart(ps: seq<HeapPacket>, a: int)
    ensures EndBy(ps, 0, a) == true
  {}

  lemma EndByMore(ps: seq<HeapPacket>, k: int, a: int)
    requires EndBy(ps, k, a)
    ensures EndBy(ps, k, a + 1) == true
  {}

  /** The cursor stands at the first packet that ends after a. */
  lemma ByteIs(ps: seq<HeapPacket>, a: int, k: nat)
    requires EndBy(ps, k, a) && (k < |ps| ==> ps[k].End() > a)
    ensures ByteAt(ps, a)
         == if k < |ps| && ps[k].payload_off <= a then Some(ps[k].payload[a - ps[k].payload_off]) else None
  {
    FirstPastIs(ps, a, k);
  }

  lemma {:induction false} FirstPastIs(ps: seq<HeapPacket>, a: int, k: nat)
    requires k <= |ps| && (forall i :: 0 <= i < k ==> ps[i].End() <= a) && (k < |ps| ==> ps[k].End() > a)
    ensures FirstPast(ps, a) == k
  {
    if k > 0 { FirstPastIs(ps[1..], a, k - 1); }
  }

  lemma NoBytesYet(ps: seq<HeapPacket>, off: int)
    ensures Bytes(ps, off, 0) == [] && AllThere(ps, off, 0)
  {}

  lemma OneMoreByte(ps: seq<HeapPacket>, off: int, o: nat)
    ensures Bytes(ps, off, o + 1) == Bytes(ps, off, o) + [ByteOr0(ByteAt(ps, off + o))]
    ensures AllThere(ps, off, o + 1) <==> AllThere(ps, off, o) && ByteAt(ps, off + o).Some?
  {
    hide ByteAt;
    if AllThere(ps, off, o) && ByteAt(ps, off + o).Some? {
      forall a | off <= a < off + o + 1 ensures ByteAt(ps, a).Some? {}
    }
  }

  /** The first direct pointer of a packet from index j0 on. */
  method NextDirectHere(its: seq<Pointer>, j0: int, ghost all: seq<Pointer>, ghost base: nat, ghost end: nat)
    returns (j: int)
    requires 0 <= j0 <= |its| && base + |its| <= |all| && all[base..base + |its|] == its
    ensures j0 <= j <= |its| && NextDirect(all, base + j, end) == NextDirect(all, base + j0, end)
    ensures j < |its| ==> its[j].mode == DIRECT && NextDirect(all, base + j, end) == its[j].addr
  {
    j := j0;
    while j < |its| && its[j].mode != DIRECT
      invariant j0 <= j <= |its| && NextDirect(all, base + j, end) == NextDirect(all, base + j0, end)
    {
      assert all[base..base + |its|][j] == all[base + j];
      j := j + 1;
    }
    if j < |its| { assert all[base..base + |its|][j] == all[base + j]; }
  }

  /** Where the pointers of packet k stand among all pointers. */
  lemma ItemPlace(ps: seq<HeapPacket>, k: nat)
    requires k < |ps|
    ensures |AllItems(ps[..k])| + |ps[k].items| == |AllItems(ps[..k + 1])| <= |AllItems(ps)|
    ensures k + 1 == |ps| ==> |AllItems(ps[..k + 1])| == |AllItems(ps)|
    ensures AllItems(ps)[|AllItems(ps[..k])|..|AllItems(ps[..k + 1])|] == ps[k].items
  {
    forall j | 0 <= j < |ps[k].items|
      ensures |AllItems(ps[..k])| + j < |AllItems(ps)| && AllItems(ps)[|AllItems(ps[..k])| + j] == ps[k].items[j]
    {
      ItemInList(ps, k, j);
    }
    var ls := ItemLists(ps);
    assert ItemLists(ps[..k]) == ls[..k] && ItemLists(ps[..k + 1]) == ls[..k + 1];
    ConcatStep(ls, k);
    if k + 1 == |ps| {
      assert ls[..k + 1] == ls;
    } else if |ps[k].items| > 0 {
      ConcatAt(ls, k, |ps[k].items| - 1);
    } else {
      ConcatPrefixShort(ls, k + 1);
    }
  }

  lemma {:induction false} ConcatPrefixShort<T>(ss: seq<seq<T>>, i: nat)
    requires i <= |ss|
    ensures |Concat(ss[..i])| <= |Concat(ss)|
  {
    if i < |ss| {
      ConcatPrefixShort(ss[..|ss| - 1], i);
      assert ss[..|ss| - 1][..i] == ss[..i];
    } else {
      assert ss[..i] == ss;
    }
  }

  lemma ItemInList(ps: seq<HeapPacket>, k: nat, j: nat)
    requires k < |ps| && j < |ps[k].items|
    ensures |AllItems(ps[..k])| + j < |AllItems(ps)| && AllItems(ps)[|AllItems(ps[..k])| + j] == ps[k].items[j]
  {
    var ls := ItemLists(ps);
    assert ItemLists(ps[..k]) == ls[..k];
    ConcatAt(ls, k, j);
  }

  // ---- a complete heap

  function PayloadBytes(ps: seq<HeapPacket>): seq<Byte> {
    if ps == [] then [] else ps[0].payload + PayloadBytes(ps[1..])
  }

  /** In a list without gaps every offset from the first packet to the end has its byte. */
  lemma {:induction false} ByteOfWhole(ps: seq<HeapPacket>, heapLen: int, a: int)
    requires ps != [] && Whole(ps, heapLen) && ps[0].payload_off <= a < heapLen
    ensures |PayloadBytes(ps)| == heapLen - ps[0].payload_off
    ensures ByteAt(ps, a) == Some(PayloadBytes(ps)[a - ps[0].payload_off])
  {
    WholeLength(ps, heapLen);
    if a >= ps[0].End() {
      var t := ps[1..];
      assert ps[0].End() == t[0].payload_off;
      hide Whole, ByteAt, PayloadBytes;
      ByteOfWhole(t, heapLen, a);
      ByteFurther(ps, a);
      BytesFurther(ps, a - ps[0].payload_off);
    }
  }

  lemma ByteFurther(ps: seq<HeapPacket>, a: int)
    requires ps != [] && ps[0].End() <= a
    ensures ByteAt(ps, a) == ByteAt(ps[1..], a)
  {
    assert FirstPast(ps, a) == 1 + FirstPast(ps[1..], a);
  }

  lemma BytesFurther(ps: seq<HeapPacket>, i: nat)
    requires ps != [] && |ps[0].payload| <= i < |PayloadBytes(ps)|
    ensures i - |ps[0].payload| < |PayloadBytes(ps[1..])|
    ensures PayloadBytes(ps)[i] == PayloadBytes(ps[1..])[i - |ps[0].payload|]
  {}

  lemma {:induction false} WholeLength(ps: seq<HeapPacket>, heapLen: int)
    requires ps != [] && Whole(ps, heapLen)
    ensures |PayloadBytes(ps)| == heapLen - ps[0].payload_off && (|ps| > 1 ==> Whole(ps[1..], heapLen))
  {
    if |ps| > 1 {
      var t := ps[1..];
      forall i | 0 <= i < |t| - 1 ensures t[i].End() == t[i + 1].payload_off {
        assert ps[i + 1].End() == ps[i + 2].payload_off;
      }
      assert ps[0].End() == t[0].payload_off;
      WholeLength(t, heapLen);
    }
  }

  /**
  When the packets cover the heap from offset 0 without gaps and its pointers are orderly, every item is valid, and a
  direct item has the bytes the other reassembly path extracts.
   */
  lemma WholeHeapItems(ps: seq<HeapPacket>, heapLen: nat, k: nat)
    requires ps != [] && ps[0].payload_off == 0 && Whole(ps, heapLen) && k < |AllItems(ps)|
      && Orderly(AllItems(ps), heapLen)
    ensures |PayloadBytes(ps)| == heapLen && ItemOf(ps, heapLen, k).is_valid
    ensures AllItems(ps)[k].mode == DIRECT ==> ItemOf(ps, heapLen, k).val == Extract(AllItems(ps), k, PayloadBytes(ps))
  {
    hide AllItems, Orderly, PayloadBytes, ByteAt;
    var ptrs, flat := AllItems(ps), PayloadBytes(ps);
    WholeLength(ps, heapLen);
    NextDirectBound(ptrs, k + 1, heapLen);
    var p, next := ptrs[k], NextDirect(ptrs, k + 1, heapLen);
    if p.mode == DIRECT {
      DirectStart(ptrs, heapLen, k);
      forall a | p.addr <= a < next ensures ByteAt(ps, a) == Some(flat[a]) { ByteOfWhole(ps, heapLen, a); }
      var b, len := Bytes(ps, p.addr, next - p.addr), next - p.addr;
      forall o | 0 <= o < len ensures b[o] == flat[p.addr..next][o] {
        assert ByteAt(ps, p.addr + o) == Some(flat[p.addr + o]);
      }
      assert b == flat[p.addr..next];
    }
  }

  lemma DirectStart(ptrs: seq<Pointer>, heapLen: nat, k: nat)
    requires Orderly(ptrs, heapLen) && k < |ptrs| && ptrs[k].mode == DIRECT
    ensures ptrs[k].addr <= NextDirect(ptrs, k + 1, heapLen)
  {
    NextDirectBound(ptrs, k + 1, heapLen);
  }

  /** Some packet covers absolute offset a. */
  ghost predicate Covered(ps: seq<HeapPacket>, a: int) {
    exists i :: 0 <= i < |ps| && Covers(ps[i], a)
  }

  /**
  In general a direct item is valid exactly when its end does not come before its start and every byte of it lies in
  some packet.
   */
  lemma ValidItems(ps: seq<HeapPacket>, heapLen: nat, k: nat)
    requires Apart(ps) && k < |AllItems(ps)| && AllItems(ps)[k].mode == DIRECT
    ensures var p, next := AllItems(ps)[k], NextDirect(AllItems(ps), k + 1, heapLen);
            ItemOf(ps, heapLen, k).is_valid <==> p.addr <= next && forall a :: p.addr <= a < next ==> Covered(ps, a)
  {
    var p, next := AllItems(ps)[k], NextDirect(AllItems(ps), k + 1, heapLen);
    forall a ensures ByteAt(ps, a).Some? <==> Covered(ps, a) {
      ByteOfCover(ps, a);
      if Covered(ps, a) {
        var i :| 0 <= i < |ps| && Covers(ps[i], a);
        assert ps[i] in ps;
      }
    }
    hide AllItems, ByteAt, Covered, Apart;
  }
}
