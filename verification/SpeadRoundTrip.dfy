/**
The second reassembly path end to end: the packets of an item group, added to a heap in any order of arrival, are found
to be all there, and finalising the heap gives back every item with its id and its bytes.

In contracts `P(..) == true` means P(..): compared with `true`, a predicate is passed on as a whole instead of being
taken apart at every call.
 */
module SpeadRoundTrip {
  import opened Sequences
  import opened Bits
  import opened SpeadLayout
  import opened Fragments
  import opened Reassembly
  import opened SpeadHeaps
  import HeapRoundTrip
  import Packetizer

  /** The packet carries fragment k of the group's heap, behind the four bookkeeping words. */
  ghost predicate IsFragment(p: HeapPacket, items: seq<Item>, size: nat, hid: nat, k: nat) {
    var f := Fragment(items, size, hid, k);
    && p.heap_cnt == f.cnt && p.heap_len == f.heapLen && p.payload_off == f.off && p.payload == f.payload
    && p.items == Packetizer.Bookkeeping(hid, |Flat(items)|, Offset(size, k), |f.payload|) + f.items
  }

  /** The packets of the heap in the order of their offsets. */
  ghost predicate IsHeap(ps: seq<HeapPacket>, items: seq<Item>, size: nat, hid: nat)
    requires size > 0
  {
    |ps| == NumPieces(|Flat(items)|, size) && forall k :: 0 <= k < |ps| ==> IsFragment(ps[k], items, size, hid, k)
  }

  // ---- the packets fit together

  lemma Spans(ps: seq<HeapPacket>, items: seq<Item>, size: nat, hid: nat, k: nat)
    requires size > 0 && IsHeap(ps, items, size, hid) && k < |ps|
    ensures var h := |Flat(items)|;
      && ps[k].payload_off == PieceEnd(h, size, k) == k * size && ps[k].End() == PieceEnd(h, size, k + 1)
      && ps[k].payload == Flat(items)[PieceEnd(h, size, k)..PieceEnd(h, size, k + 1)]
      && (k + 1 == |ps| ==> ps[k].End() == h)
    ensures ps[k].heap_cnt == hid && ps[k].heap_len == |Flat(items)| && ps[k].items != []
  {
    hide Flat, NumPieces, ItemPointers;
    assert IsFragment(ps[k], items, size, hid, k);
    PieceBounds(|Flat(items)|, size, k);
    EndMonotone(|Flat(items)|, size, k);
  }

  lemma HeapWhole(ps: seq<HeapPacket>, items: seq<Item>, size: nat, hid: nat)
    requires size > 0 && IsHeap(ps, items, size, hid) == true
    ensures ps != [] && ps[0].payload_off == 0 && Whole(ps, |Flat(items)|) && Sorted(ps) && DistinctOffsets(ps)
  {
    hide *;
    HeapNotEmpty(ps, items, size, hid);
    Spans(ps, items, size, hid, 0);
    Spans(ps, items, size, hid, |ps| - 1);
    forall i | 0 <= i < |ps| - 1 ensures ps[i].End() == ps[i + 1].payload_off { Adjoining(ps, items, size, hid, i); }
    forall i, j | 0 <= i < j < |ps| ensures ps[i].payload_off < ps[j].payload_off {
      Before(ps, items, size, hid, i, j);
    }
    IsWhole(ps, |Flat(items)|);
  }

  lemma Adjoining(ps: seq<HeapPacket>, items: seq<Item>, size: nat, hid: nat, i: nat)
    requires size > 0 && IsHeap(ps, items, size, hid) == true && i + 1 < |ps|
    ensures ps[i].End() == ps[i + 1].payload_off
  {
    hide *;
    Spans(ps, items, size, hid, i);
    Spans(ps, items, size, hid, i + 1);
  }

  lemma Before(ps: seq<HeapPacket>, items: seq<Item>, size: nat, hid: nat, i: nat, j: nat)
    requires size > 0 && IsHeap(ps, items, size, hid) == true && i < j < |ps|
    ensures ps[i].payload_off < ps[j].payload_off
  {
    hide *;
    Spans(ps, items, size, hid, i);
    Spans(ps, items, size, hid, j);
    MulMonotone(size, i + 1, j);
    assert (i + 1) * size == i * size + size;
  }

  lemma IsWhole(ps: seq<HeapPacket>, h: nat)
    requires forall i :: 0 <= i < |ps| - 1 ==> ps[i].End() == ps[i + 1].payload_off
    requires forall i, j :: 0 <= i < j < |ps| ==> ps[i].payload_off < ps[j].payload_off
    requires ps != [] && ps[|ps| - 1].End() == h
    ensures Whole(ps, h) && Sorted(ps) && DistinctOffsets(ps)
  {}

  lemma HeapNotEmpty(ps: seq<HeapPacket>, items: seq<Item>, size: nat, hid: nat)
    requires size > 0 && IsHeap(ps, items, size, hid)
    ensures |ps| == NumPieces(|Flat(items)|, size) > 0
  {}

  lemma {:induction false} TailBytes(ps: seq<HeapPacket>, items: seq<Item>, size: nat, hid: nat, k: nat)
    requires size > 0 && IsHeap(ps, items, size, hid) == true && k <= |ps|
    ensures PayloadBytes(ps[k..]) == Flat(items)[if k < |ps| then PieceEnd(|Flat(items)|, size, k) else |Flat(items)|..]
    decreases |ps| - k
  {
    hide IsHeap, PieceEnd, Flat, PayloadBytes;
    HeapNotEmpty(ps, items, size, hid);
    if k == |ps| {
      NoPayload(ps[k..]);
    } else {
      TailBytes(ps, items, size, hid, k + 1);
      Spans(ps, items, size, hid, k);
      FirstPayload(ps[k..]);
      assert ps[k..][1..] == ps[k + 1..];
      var flat := Flat(items);
      var a, b := PieceEnd(|flat|, size, k), PieceEnd(|flat|, size, k + 1);
      assert flat[a..b] + flat[b..] == flat[a..];
    }
  }

  lemma NoPayload(ps: seq<HeapPacket>)
    requires ps == []
    ensures PayloadBytes(ps) == []
  {}

  lemma FirstPayload(ps: seq<HeapPacket>)
    requires ps != []
    ensures PayloadBytes(ps) == ps[0].payload + PayloadBytes(ps[1..])
  {}

  // ---- where the pointers stand

  /** The pointers of packet 0 start at 0, those of packet k > 0 behind all item pointers and k times four words. */
  function PlaceOf(m: nat, k: nat): nat { if k == 0 then 0 else m + 4 * k }

  lemma {:induction false} PointersPlaced(ps: seq<HeapPacket>, items: seq<Item>, size: nat, hid: nat, k: nat)
    requires size > 0 && IsHeap(ps, items, size, hid) == true && k <= |ps|
    ensures |AllItems(ps[..k])| == PlaceOf(|items|, k)
  {
    hide IsHeap, AllItems;
    if k == 0 {
      NoItems(ps);
    } else {
      PointersPlaced(ps, items, size, hid, k - 1);
      PacketPointers(ps, items, size, hid, k - 1);
      ItemPlace(ps, k - 1);
    }
  }

  lemma PacketPointers(ps: seq<HeapPacket>, items: seq<Item>, size: nat, hid: nat, k: nat)
    requires size > 0 && IsHeap(ps, items, size, hid) && k < |ps|
    ensures var q := ps[k].items;
      && |q| == 4 + (if k == 0 then |items| else 0)
      && (forall i :: 0 <= i < 4 ==> q[i].mode == IMMEDIATE && q[i].id == i + 1)
      && q[1].addr == |Flat(items)|
      && (k == 0 ==> q[4..] == ItemPointers(items))
  {
    hide Flat, ItemPointers, NumPieces, Piece;
    assert IsFragment(ps[k], items, size, hid, k);
  }

  /** Words of ids 1 to 4 with immediate values start at index at. */
  predicate BookkeepingAt(all: seq<Pointer>, at: nat) {
    at + 4 <= |all| && forall i :: at <= i < at + 4 ==> all[i].mode == IMMEDIATE && all[i].id == i - at + 1
  }

  lemma PointersOfPacket(ps: seq<HeapPacket>, items: seq<Item>, size: nat, hid: nat, k: nat)
    requires size > 0 && IsHeap(ps, items, size, hid) == true && k < |ps|
    ensures var all, at, m := AllItems(ps), PlaceOf(|items|, k), |items|;
      && PlaceOf(m, k + 1) <= |all| && at + 4 <= PlaceOf(m, k + 1) && (k > 0 ==> PlaceOf(m, k + 1) == at + 4)
      && (k + 1 == |ps| ==> PlaceOf(m, k + 1) == |all|)
      && BookkeepingAt(all, at) && all[at + 1].addr == |Flat(items)|
      && (k == 0 ==> all[4..4 + m] == ItemPointers(items))
  {
    hide IsHeap, AllItems, Flat, ItemPointers;
    PointersPlaced(ps, items, size, hid, k);
    PointersPlaced(ps, items, size, hid, k + 1);
    PacketPointers(ps, items, size, hid, k);
    ItemPlace(ps, k);
    var all, at, q := AllItems(ps), PlaceOf(|items|, k), ps[k].items;
    assert all[at..at + |q|] == q;
    assert forall i :: 0 <= i < |q| ==> all[at + i] == q[i];
    if k == 0 { assert all[4..4 + |items|] == q[4..]; }
  }

  /** Only the group's own pointers are direct. */
  lemma OnlyItemsDirect(ps: seq<HeapPacket>, items: seq<Item>, size: nat, hid: nat, i: nat)
    requires size > 0 && IsHeap(ps, items, size, hid) == true && i < |AllItems(ps)|
    ensures if 4 <= i < 4 + |items| then AllItems(ps)[i] == ItemPointers(items)[i - 4]
            else AllItems(ps)[i].mode == IMMEDIATE
  {
    hide IsHeap, AllItems, Flat, ItemPointers;
    HeapNotEmpty(ps, items, size, hid);
    var m := |items|;
    PointersOfPacket(ps, items, size, hid, |ps| - 1);
    var k := if i < 4 + m then 0 else (i - m) / 4;
    PointersOfPacket(ps, items, size, hid, k);
    if 4 <= i < 4 + m {
      assert AllItems(ps)[4..4 + m][i - 4] == AllItems(ps)[i];
    } else {
      assert BookkeepingAt(AllItems(ps), PlaceOf(m, k));
    }
  }

  lemma {:induction false} NextAmongItems(ps: seq<HeapPacket>, items: seq<Item>, size: nat, hid: nat, i: nat, end: nat)
    requires size > 0 && IsHeap(ps, items, size, hid) == true && 4 <= i <= |AllItems(ps)|
    ensures NextDirect(AllItems(ps), i, end)
         == if i < 4 + |items| then |Flat(items[..i - 4])| else end
    decreases |AllItems(ps)| - i
  {
    hide IsHeap, AllItems, Flat, ItemPointers;
    if i < |AllItems(ps)| {
      OnlyItemsDirect(ps, items, size, hid, i);
      if i < 4 + |items| {
        PointerAt(items, i - 4);
      } else {
        NextAmongItems(ps, items, size, hid, i + 1, end);
      }
    } else {
      HeapNotEmpty(ps, items, size, hid);
      PointersOfPacket(ps, items, size, hid, 0);
    }
  }

  lemma HeapOrderly(ps: seq<HeapPacket>, items: seq<Item>, size: nat, hid: nat)
    requires size > 0 && IsHeap(ps, items, size, hid) == true
    ensures 4 + |items| <= |AllItems(ps)| && Orderly(AllItems(ps), |Flat(items)|)
  {
    hide IsHeap, AllItems, Flat, ItemPointers;
    HeapNotEmpty(ps, items, size, hid);
    PointersOfPacket(ps, items, size, hid, 0);
    HeapRoundTrip.PointersOrderly(items);
    var all := AllItems(ps);
    forall i | 0 <= i < |all|
      ensures all[i].mode == DIRECT ==> 4 <= i < 4 + |items| && all[i] == ItemPointers(items)[i - 4]
    {
      OnlyItemsDirect(ps, items, size, hid, i);
    }
    NextAmongItems(ps, items, size, hid, 4, 0);
    FourImmediate(all, 0);
    NoBytes(items);
  }

  lemma NoBytes(items: seq<Item>)
    ensures |Flat(items[..0])| == 0
  {}

  lemma FourImmediate(all: seq<Pointer>, end: nat)
    requires BookkeepingAt(all, 0)
    ensures NextDirect(all, 0, end) == NextDirect(all, 4, end)
  {
    assert NextDirect(all, 0, end) == NextDirect(all, 1, end) == NextDirect(all, 2, end) == NextDirect(all, 3, end);
  }

  // ---- the items

  /** The item tells the length of the heap. */
  ghost predicate TellsLength(item: SpeadItem, h: nat) {
    item.is_valid && item.id == 2 && item.len == |item.val| == 5 && FromBytes(item.val) == h
  }

  /** The group's items, valid and whole, behind one heap length; a heap length for every further packet. */
  ghost predicate GivesBack(out: seq<SpeadItem>, items: seq<Item>, packets: nat) {
    && packets > 0 && |out| == |items| + packets
    && (forall j :: 0 <= j < |out| && !(1 <= j <= |items|) ==> TellsLength(out[j], |Flat(items)|))
    && forall i :: 0 <= i < |items| ==> out[1 + i] == SpeadItem(true, items[i].id, items[i].data, |items[i].data|)
  }

  /** The four bookkeeping words give one item, the heap length. */
  lemma BookkeepingItem(ps: seq<HeapPacket>, h: nat, at: nat)
    requires at + 4 <= |AllItems(ps)| && BookkeepingAt(AllItems(ps), at)
    ensures ItemsOf(ps, h, at + 4) == ItemsOf(ps, h, at) + [ItemOf(ps, h, at + 1)]
  {
    hide AllItems, ItemOf;
    var all := AllItems(ps);
    assert all[at].id == 1 && all[at + 1].id == 2 && all[at + 2].id == 3 && all[at + 3].id == 4;
    assert ItemsOf(ps, h, at + 1) == ItemsOf(ps, h, at);
    assert ItemsOf(ps, h, at + 2) == ItemsOf(ps, h, at + 1) + [ItemOf(ps, h, at + 1)];
    assert ItemsOf(ps, h, at + 3) == ItemsOf(ps, h, at + 2);
  }

  lemma LengthItem(ps: seq<HeapPacket>, h: nat, at: nat)
    requires at < |AllItems(ps)| && h < ADDR_LIMIT
    requires var p := AllItems(ps)[at]; p.mode == IMMEDIATE && p.id == 2 && p.addr == h
    ensures TellsLength(ItemOf(ps, h, at), h)
  {
    hide AllItems, ToBytes, FromBytes;
    assert Pow256(5) == ADDR_LIMIT;
    BytesRoundTrip(h, 5);
  }

  /** The item of the group's pointer i. */
  lemma GroupItem(ps: seq<HeapPacket>, items: seq<Item>, size: nat, hid: nat, i: nat)
    requires size > 0 && IsHeap(ps, items, size, hid) == true && i < |items|
    ensures 4 + i < |AllItems(ps)| && AllItems(ps)[4 + i].id == items[i].id
    ensures ItemOf(ps, |Flat(items)|, 4 + i) == SpeadItem(true, items[i].id, items[i].data, |items[i].data|)
  {
    hide IsHeap, AllItems, Flat, ItemPointers, Orderly, Whole, PayloadBytes, ItemOf;
    HeapOrderly(ps, items, size, hid);
    HeapWhole(ps, items, size, hid);
    TailBytes(ps, items, size, hid, 0);
    assert ps[0..] == ps;
    OnlyItemsDirect(ps, items, size, hid, 4 + i);
    PointerAt(items, i);
    NextAmongItems(ps, items, size, hid, 4 + i + 1, |Flat(items)|);
    ItemInFlat(items, i);
    if i + 1 == |items| { assert items[..i + 1] == items; }
    WholeHeapItems(ps, |Flat(items)|, 4 + i);
    ItemParts(ps, |Flat(items)|, 4 + i, |Flat(items[..i + 1])|);
  }

  lemma ItemParts(ps: seq<HeapPacket>, h: nat, k: nat, e: nat)
    requires k < |AllItems(ps)| && AllItems(ps)[k].mode == DIRECT && NextDirect(AllItems(ps), k + 1, h) == e
    requires AllItems(ps)[k].addr <= e <= |PayloadBytes(ps)| == h
    ensures ItemOf(ps, h, k).id == AllItems(ps)[k].id && ItemOf(ps, h, k).len == e - AllItems(ps)[k].addr
    ensures Extract(AllItems(ps), k, PayloadBytes(ps)) == PayloadBytes(ps)[AllItems(ps)[k].addr..e]
  {
    hide AllItems, PayloadBytes, Bytes, AllThere;
  }

  lemma {:induction false} GroupItems(ps: seq<HeapPacket>, items: seq<Item>, size: nat, hid: nat, i: nat)
    requires size > 0 && IsHeap(ps, items, size, hid) == true && i <= |items| && |Flat(items)| < ADDR_LIMIT
    requires forall k :: 0 <= k < |items| ==> items[k].id !in {1, 3, 4, 6}
    ensures 4 + |items| <= |AllItems(ps)| && |ItemsOf(ps, |Flat(items)|, 4 + i)| == 1 + i
    ensures var out := ItemsOf(ps, |Flat(items)|, 4 + i);
      && TellsLength(out[0], |Flat(items)|)
      && forall k :: 0 <= k < i ==> out[1 + k] == SpeadItem(true, items[k].id, items[k].data, |items[k].data|)
  {
    hide IsHeap, AllItems, Flat, ItemsOf, ItemOf, TellsLength;
    var h := |Flat(items)|;
    HeapOrderly(ps, items, size, hid);
    if i == 0 {
      HeapNotEmpty(ps, items, size, hid);
      PointersOfPacket(ps, items, size, hid, 0);
      BookkeepingItem(ps, h, 0);
      LengthItem(ps, h, 1);
      NothingOf(ps, h);
    } else {
      GroupItems(ps, items, size, hid, i - 1);
      GroupItem(ps, items, size, hid, i - 1);
      OneMoreItem(ps, h, 4 + i - 1);
    }
  }

  lemma NothingOf(ps: seq<HeapPacket>, h: nat)
    ensures ItemsOf(ps, h, 0) == []
  {}

  lemma OneMoreItem(ps: seq<HeapPacket>, h: nat, k: nat)
    requires k < |AllItems(ps)| && AllItems(ps)[k].id !in {1, 3, 4, 6}
    ensures ItemsOf(ps, h, k + 1) == ItemsOf(ps, h, k) + [ItemOf(ps, h, k)]
  {}

  /** The items of the first k packets. */
  lemma {:induction false} HeapItems(ps: seq<HeapPacket>, items: seq<Item>, size: nat, hid: nat, k: nat)
    requires size > 0 && IsHeap(ps, items, size, hid) == true && 0 < k <= |ps| && |Flat(items)| < ADDR_LIMIT
    requires forall k :: 0 <= k < |items| ==> items[k].id !in {1, 3, 4, 6}
    ensures PlaceOf(|items|, k) <= |AllItems(ps)| && (k == |ps| ==> PlaceOf(|items|, k) == |AllItems(ps)|)
    ensures GivesBack(ItemsOf(ps, |Flat(items)|, PlaceOf(|items|, k)), items, k)
  {
    hide IsHeap, AllItems, Flat, ItemsOf, ItemOf, TellsLength;
    var h, at := |Flat(items)|, PlaceOf(|items|, k - 1);
    PointersOfPacket(ps, items, size, hid, k - 1);
    if k == 1 {
      GroupItems(ps, items, size, hid, |items|);
    } else {
      HeapItems(ps, items, size, hid, k - 1);
      BookkeepingItem(ps, h, at);
      LengthItem(ps, h, at + 1);
    }
  }

  /** Adds the packets of a group's heap in any order of arrival and takes the items out. */
  method ReceiveGroup(heap: SpeadHeap, pkts: seq<HeapPacket>, ghost ps: seq<HeapPacket>, ghost items: seq<Item>,
                      ghost size: nat, ghost hid: nat)
    returns (r: int)
    requires heap.Valid() == true && heap.packets == [] && heap.heap_cnt < 0
    requires size > 0 && IsHeap(ps, items, size, hid) == true && multiset(pkts) == multiset(ps)
    requires forall i :: 0 <= i < |pkts| ==> pkts[i].next == null
    requires |Flat(items)| < ADDR_LIMIT && forall k :: 0 <= k < |items| ==> items[k].id !in {1, 3, 4, 6}
    modifies heap, pkts
    ensures r == 1 && heap.is_valid && GivesBack(heap.items, items, |pkts|)
  {
    hide SpeadHeap.Valid, IsHeap, AllItems, ItemsOf, AddedAll, Whole, Taken, GivesBack, OneHeap, LengthTold, Flat;
    HeapWhole(ps, items, size, hid);
    AnyArrival(pkts, ps, items, size, hid);
    HeapItems(ps, items, size, hid, |ps|);
    r := heap.AddPackets(pkts);
    heap.Finalize();
    AllValid(heap, items, |ps|);
  }

  lemma AllValid(heap: SpeadHeap, items: seq<Item>, n: nat)
    requires GivesBack(heap.items, items, n)
    ensures forall i :: 0 <= i < |heap.items| ==> heap.items[i].is_valid
    ensures heap.items != []
  {
    forall i | 0 <= i < |heap.items| ensures heap.items[i].is_valid {
      if 1 <= i <= |items| {
        var k := i - 1;
        assert heap.items[1 + k] == SpeadItem(true, items[k].id, items[k].data, |items[k].data|);
      }
    }
  }

  lemma AnyArrival(pkts: seq<HeapPacket>, ps: seq<HeapPacket>, items: seq<Item>, size: nat, hid: nat)
    requires size > 0 && IsHeap(ps, items, size, hid) == true && multiset(pkts) == multiset(ps)
    ensures pkts != [] && |pkts| == |ps| && OneHeap(pkts) && AddedAll(pkts) == ps
    ensures forall before: int :: LengthTold(pkts, before) == |Flat(items)|
  {
    hide IsHeap, Whole, AddedAll, Flat, Sorted, ItemPointers;
    HeapWhole(ps, items, size, hid);
    assert |pkts| == |multiset(pkts)| == |multiset(ps)| == |ps|;
    AddedAllSorted(pkts);
    SortedUnique(ps, AddedAll(pkts));
    DistinctMoves(ps, pkts);
    forall p | p in pkts ensures p.heap_cnt == hid && p.heap_len == |Flat(items)| && p.items != [] {
      assert p in multiset(ps);
      var k :| 0 <= k < |ps| && ps[k] == p;
      Spans(ps, items, size, hid, k);
    }
    IsOneHeap(pkts, hid, |Flat(items)|);
  }

  lemma IsOneHeap(pkts: seq<HeapPacket>, hid: nat, h: nat)
    requires pkts != [] && DistinctOffsets(pkts)
    requires forall p :: p in pkts ==> p.heap_cnt == hid && p.heap_len == h && p.items != []
    ensures OneHeap(pkts) && forall before: int :: LengthTold(pkts, before) == h
  {
    assert forall i :: 0 <= i < |pkts| ==> pkts[i] in pkts;
  }
}
