/**
The receiver: when the bytes of a heap are all there, its packets are walked once for the item pointers, two stacks
turn the pointers round to find the item lengths, and a resumable walk copies the bytes of each item out of the
packets.

In contracts `P(..) == true` means P(..): compared with `true`, a predicate is passed on as a whole instead of being
taken apart at every call.
 */
module Receiver {
  import opened Sequences
  import opened SpeadLayout
  import opened HeapStore
  import opened Fragments
  import opened Reassembly
  import opened TableOrder

  datatype Item2 = Item2(id: nat, mode: nat, off: int, len: int)

  /** A stack; the top is the last element. */
  class Stack {
    var data: seq<Item2>
    var size: nat

    ghost predicate Valid()
      reads this
    {
      size == |data|
    }

    constructor ()
      ensures Valid() && data == []
    {
      data, size := [], 0;
    }

    method Push(x: Item2)
      requires Valid()
      modifies this
      ensures Valid() && data == old(data) + [x]
    {
      data := data + [x];
      size := size + 1;
    }

    method Pop() returns (x: Item2)
      requires Valid() && data != []
      modifies this
      ensures Valid() && old(data) == data + [x]
    {
      x := data[|data| - 1];
      data := data[..|data| - 1];
      size := size - 1;
    }
  }

  /** The item group under construction: an arena of g_size bytes in which every item takes a header and its length. */
  const ITEM_HEADER := 40

  class ItemGroup {
    var g_size: int
    var g_off: int
    var g_cd: bool
    var items: seq<ApiItem>
    /** The length reserved for the last item. */
    var i_len: int

    constructor (datasize: int, nitems: int)
      ensures g_size == datasize + nitems * ITEM_HEADER && g_off == 0 && items == [] && !g_cd && i_len == 0
    {
      g_size := datasize + nitems * ITEM_HEADER;
      g_off, g_cd, items, i_len := 0, false, [], 0;
    }

    /** Takes the next item from the arena. */
    method NewItem(size: int, id: nat, mode: nat) returns (ok: bool)
      modifies this`g_off, this`items, this`i_len
      ensures ok == (size > 0 && old(g_off) + size + ITEM_HEADER <= g_size)
      ensures ok ==> items == old(items) + [ApiItem(id, mode, [])]
      ensures ok ==> i_len == size && g_off == old(g_off) + size + ITEM_HEADER
      ensures !ok ==> items == old(items) && g_off == old(g_off) && i_len == old(i_len)
    {
      var item_size := size + ITEM_HEADER;
      if size <= 0 || g_off + item_size > g_size { return false; }
      g_off := g_off + item_size;
      items := items + [ApiItem(id, mode, [])];
      i_len := size;
      return true;
    }

    /** Sets the bytes of the item taken last. */
    method Copy(src: seq<Byte>) returns (ok: bool)
      requires items != []
      modifies this`items
      ensures var n, last := |old(items)| - 1, old(items)[|old(items)| - 1];
              && ok == (|src| <= i_len)
              && items == (if ok then old(items)[..n] + [ApiItem(last.id, last.mode, src)] else old(items))
    {
      var n := |items| - 1;
      var last := items[n];
      if |src| > i_len { return false; }
      items := items[..n] + [ApiItem(last.id, last.mode, src)];
      return true;
    }

    /** Appends bytes to the item taken last. */
    method Append(src: seq<Byte>) returns (ok: bool)
      requires items != []
      modifies this`items
      ensures var n, last := |old(items)| - 1, old(items)[|old(items)| - 1];
              && ok == (|src| + |last.data| <= i_len)
              && items == (if ok then old(items)[..n] + [ApiItem(last.id, last.mode, last.data + src)] else old(items))
    {
      var n := |items| - 1;
      var last := items[n];
      if |src| + |last.data| > i_len { return false; }
      items := items[..n] + [ApiItem(last.id, last.mode, last.data + src)];
      return true;
    }
  }

  // ---- pointers of the packets

  /** The packets read as the given messages. */
  ghost predicate Holds(ps: seq<Packet>, ms: seq<Message>)
    reads ps
  {
    |ps| == |ms| && forall i :: 0 <= i < |ps| ==> ps[i].Unpacked() && ps[i].Read() == ms[i]
  }

  /** The user pointers of the messages, one message after the other. */
  function PointersOf(ms: seq<Message>): seq<Pointer> {
    if ms == [] then [] else PointersOf(ms[..|ms| - 1]) + ms[|ms| - 1].items
  }

  /** The payloads of the messages, one after the other. */
  function BytesOf(ms: seq<Message>): seq<Byte> {
    if ms == [] then [] else BytesOf(ms[..|ms| - 1]) + ms[|ms| - 1].payload
  }

  function ToItem2(ps: seq<Pointer>): (r: seq<Item2>)
    ensures |r| == |ps|
  {
    seq(|ps|, i requires 0 <= i < |ps| => Item2(ps[i].id, ps[i].mode, ps[i].addr, 0))
  }

  lemma ToItem2Append(ps: seq<Pointer>, qs: seq<Pointer>)
    ensures ToItem2(ps + qs) == ToItem2(ps) + ToItem2(qs)
  {}

  lemma CoalesceStep(data: seq<Byte>, j: nat)
    requires 8 * (j + 1) + 8 <= |data|
    ensures var w := Word(data, j + 1);
            ToItem2(UserPointers(Pointers(data, j + 1)))
            == ToItem2(UserPointers(Pointers(data, j)))
               + if Reserved(ItemId(w)) then [] else [Item2(ItemId(w), ItemMode(w), ItemAddr(w), 0)]
  {
    hide Word, ItemId, ItemMode, ItemAddr;
    var w, ps := Word(data, j + 1), Pointers(data, j + 1);
    assert ps[..|ps| - 1] == Pointers(data, j) && ps[|ps| - 1] == ItemPointer(w);
    hide Pointers;
    ToItem2Append(UserPointers(Pointers(data, j)), [ItemPointer(w)]);
  }

  /** Pushes the user pointers of one packet. */
  method CoalescePacket(p: Packet, stack: Stack)
    requires p.Unpacked() && stack.Valid()
    modifies stack
    ensures stack.Valid() && stack.data == old(stack.data) + ToItem2(p.Read().items)
  {
    hide Pointers, Word, ItemId, ItemMode, ItemAddr, UserPointers, ToItem2, Reserved;
    assert ToItem2(UserPointers(Pointers(p.data, 0))) == [] by { NoPointers(p.data); }
    for j := 0 to p.n_items
      invariant stack.Valid() && p.Unpacked()
      invariant stack.data == old(stack.data) + ToItem2(UserPointers(Pointers(p.data, j)))
    {
      var iptr := Word(p.data, j + 1);
      var id := ItemId(iptr);
      CoalesceStep(p.data, j);
      if Reserved(id) { continue; }
      stack.Push(Item2(id, ItemMode(iptr), ItemAddr(iptr), 0));
    }
  }

  lemma NoPointers(data: seq<Byte>)
    requires |data| >= 8
    ensures ToItem2(UserPointers(Pointers(data, 0))) == []
  {}

  datatype TraverseState = END | GET_OBJECT | GET_PACKET | NEXT_PACKET

  lemma Visit(c: seq<Packet>, ms: seq<Message>, m: nat, p: Packet)
    requires Holds(c, ms) && m < |c| && c[m] == p
    ensures p.Unpacked() && p.Read() == ms[m] && p.payload_len == |ms[m].payload|
    ensures |BytesOf(ms[..m + 1])| == |BytesOf(ms[..m])| + |ms[m].payload|
    ensures ToItem2(PointersOf(ms[..m + 1])) == ToItem2(PointersOf(ms[..m])) + ToItem2(ms[m].items)
  {
    assert ms[..m + 1][..m] == ms[..m];
    ToItem2Append(PointersOf(ms[..m]), ms[m].items);
  }

  /** The callback for packet m of the traversal. */
  method VisitPacket(ghost c: seq<Packet>, ghost ms: seq<Message>, ghost m: nat, p: Packet, stack: Stack)
    returns (len: int)
    requires Holds(c, ms) == true && m < |c| == |ms| && c[m] == p
    requires stack.Valid() && stack.data == ToItem2(PointersOf(ms[..m]))
    modifies stack
    ensures Holds(c, ms) == true && stack.Valid() && stack.data == ToItem2(PointersOf(ms[..m + 1]))
    ensures |BytesOf(ms[..m + 1])| == |BytesOf(ms[..m])| + len
  {
    SeqAllocated(c);
    Visit(c, ms, m, p);
    hide *;
    len := p.payload_len;
    CoalescePacket(p, stack);
  }

  lemma SeqAllocated(c: seq<Packet>)
    ensures forall i :: 0 <= i < |c| ==> allocated(c[i])
  {}

  /** The walk over the buckets has passed m objects. */
  ghost predicate At<T>(ss: seq<seq<T>>, i: int, pos: int, state: TraverseState, m: nat) {
    && 0 <= i <= |ss|
    && (state == GET_PACKET || state == NEXT_PACKET ==> i < |ss| && 0 <= pos < |ss[i]|)
    && (state == END ==> i == |ss|)
    && m == |Concat(ss[..i])| + if state == GET_PACKET then pos else if state == NEXT_PACKET then pos + 1 else 0
  }

  /** A place of the walk that Advance can leave. */
  predicate Leavable<T>(ss: seq<seq<T>>, i: int, pos: int, state: TraverseState) {
    && 0 <= i <= |ss| && (state == GET_OBJECT || state == NEXT_PACKET)
    && (state == NEXT_PACKET ==> i < |ss| && 0 <= pos < |ss[i]|)
  }

  /** The next object of the chain or the next bucket. */
  function NextPlace<T>(ss: seq<seq<T>>, i: int, pos: int, state: TraverseState): (int, int, TraverseState)
    requires Leavable(ss, i, pos, state)
  {
    if state == GET_OBJECT then
      if i == |ss| then (i, pos, END) else if |ss[i]| == 0 then (i + 1, pos, GET_OBJECT) else (i, 0, GET_PACKET)
    else if pos + 1 < |ss[i]| then (i, pos + 1, GET_PACKET)
    else (i + 1, pos, GET_OBJECT)
  }

  method Advance(ht: HashTable, i0: int, pos0: int, state0: TraverseState)
    returns (i: int, pos: int, state: TraverseState)
    requires Leavable(ht.os[..], i0, pos0, state0)
    ensures (i, pos, state) == NextPlace(ht.os[..], i0, pos0, state0)
  {
    i, pos, state := i0, pos0, state0;
    if state == GET_OBJECT {
      if i < ht.os.Length {
        if |ht.os[i]| == 0 {
          i := i + 1;
        } else {
          pos, state := 0, GET_PACKET;
        }
      } else {
        state := END;
      }
    } else {
      if pos + 1 < |ht.os[i]| {
        pos, state := pos + 1, GET_PACKET;
      } else {
        i, state := i + 1, GET_OBJECT;
      }
    }
  }

  /** Objects left in the current chain. */
  function ChainLeft<T>(ss: seq<seq<T>>, i: int, pos: int): int {
    if 0 <= i < |ss| then |ss[i]| - pos else 0
  }

  lemma AtSteps<T>(ss: seq<seq<T>>, i: int, pos: int, state: TraverseState, m: nat)
    requires At(ss, i, pos, state, m)
    ensures state == GET_PACKET ==> && i < |ss| && 0 <= pos < |ss[i]| && m < |Concat(ss)| && Concat(ss)[m] == ss[i][pos]
                                    && At(ss, i, pos, NEXT_PACKET, m + 1) == true
    ensures state == END ==> m == |Concat(ss)|
    ensures 0 <= i <= |ss| && (state == NEXT_PACKET ==> i < |ss| && 0 <= pos < |ss[i]|)
    ensures state == GET_OBJECT || state == NEXT_PACKET ==>
              && Leavable(ss, i, pos, state) == true
              && var (i', pos', state') := NextPlace(ss, i, pos, state);
                 && At(ss, i', pos', state', m) == true
                 && (i' == i || (i' == i + 1 && i' <= |ss|))
                 && (i' == i ==> || (state == GET_OBJECT && state' != GET_OBJECT)
                                 || (state == NEXT_PACKET && state' == GET_PACKET && pos' == pos + 1
                                     && pos' < ChainLeft(ss, i, 0)))
  {
    hide Concat;
    if i < |ss| {
      ConcatStep(ss, i);
      if state == GET_PACKET { ConcatAt(ss, i, pos); }
    }
    assert ss[..|ss|] == ss;
  }

  method AdvanceWalk(ht: HashTable, i0: int, pos0: int, state0: TraverseState, ghost m: nat)
    returns (i: int, pos: int, state: TraverseState, ghost left: int)
    requires At(ht.os[..], i0, pos0, state0, m) == true && (state0 == GET_OBJECT || state0 == NEXT_PACKET)
    ensures At(ht.os[..], i, pos, state, m) == true
    ensures i0 <= i <= ht.os.Length
    ensures i == i0 ==> (if state0 == GET_OBJECT then state != GET_OBJECT else state == GET_PACKET)
    ensures left == ChainLeft(ht.os[..], i, pos)
    ensures i == i0 && state0 == NEXT_PACKET ==> 0 <= left < ChainLeft(ht.os[..], i0, pos0)
  {
    AtSteps(ht.os[..], i0, pos0, state0, m);
    hide At, NextPlace, Leavable;
    i, pos, state := Advance(ht, i0, pos0, state0);
    left := ChainLeft(ht.os[..], i, pos);
  }

  /** The visit of the packet the walk stands at. */
  method VisitAt(ht: HashTable, i: int, pos: int, stack: Stack, ghost ms: seq<Message>, ghost m: nat) returns (len: int)
    requires At(ht.os[..], i, pos, GET_PACKET, m) == true && Holds(Concat(ht.os[..]), ms) == true
    requires stack.Valid() && m <= |ms| && stack.data == ToItem2(PointersOf(ms[..m]))
    modifies stack
    ensures At(ht.os[..], i, pos, NEXT_PACKET, m + 1) == true && Holds(Concat(ht.os[..]), ms) == true
    ensures stack.Valid() && m < |ms| && stack.data == ToItem2(PointersOf(ms[..m + 1]))
    ensures |BytesOf(ms[..m + 1])| == |BytesOf(ms[..m])| + len
  {
    ghost var c := Concat(ht.os[..]);
    assert |c| == |ms|;
    hide *;
    AtSteps(ht.os[..], i, pos, GET_PACKET, m);
    SeqAllocated(c);
    len := VisitPacket(c, ms, m, ht.os[i][pos], stack);
  }

  lemma StartCoalescing(ht: HashTable, ms: seq<Message>)
    requires Holds(ht.Contents(), ms)
    ensures var ss := ht.os[..];
      && Holds(Concat(ss), ms) == true && |Concat(ss)| == |ms| && At(ss, 0, 0, GET_OBJECT, 0)
      && forall i :: 0 <= i < |Concat(ss)| ==> allocated(Concat(ss)[i])
    ensures ToItem2(PointersOf(ms[..0])) == [] && BytesOf(ms[..0]) == []
  {
    assert Concat(ht.os[..][..0]) == [];
    SeqAllocated(ht.Contents());
  }

  /** Visits every packet, bucket by bucket and chain by chain, and pushes its pointers: the number of payload bytes. */
  method CoalesceItems(ht: HashTable, stack: Stack, ghost ms: seq<Message>) returns (d_off: int)
    requires Holds(ht.Contents(), ms) && stack.Valid() && stack.data == []
    modifies stack
    ensures stack.Valid() && stack.data == ToItem2(PointersOf(ms)) && d_off == |BytesOf(ms)|
  {
    hide *;
    ghost var ss, m := ht.os[..], 0;
    StartCoalescing(ht, ms);
    d_off := 0;
    var i, pos, state := 0, 0, GET_OBJECT;
    ghost var left := ChainLeft(ss, 0, 0);
    while state != END
      invariant ht.os[..] == ss && At(ss, i, pos, state, m) == true && Holds(Concat(ss), ms) == true && stack.Valid()
      invariant i <= |ss| && left == ChainLeft(ss, i, pos)
      invariant m <= |ms| && stack.data == ToItem2(PointersOf(ms[..m])) && d_off == |BytesOf(ms[..m])|
      decreases |ss| - i, state == GET_OBJECT, left, state == GET_PACKET
    {
      if state == GET_PACKET {
        var len := VisitAt(ht, i, pos, stack, ms, m);
        d_off := d_off + len;
        state := NEXT_PACKET;
        m := m + 1;
      } else {
        i, pos, state, left := AdvanceWalk(ht, i, pos, state, m);
      }
    }
    AtSteps(ss, i, pos, state, m);
    assert ms[..m] == ms;
  }

  // ---- lengths: the first funnel

  /** The items with the lengths that Lengths gives them. */
  function Measured(ps: seq<Pointer>, total: int): (w: seq<Item2>)
    ensures |w| == |ps|
  {
    seq(|ps|, i requires 0 <= i < |ps| => Item2(ps[i].id, ps[i].mode, ps[i].addr, Lengths(ps, total)[i]))
  }

  /** One callback of the first funnel, seen from the pointers. */
  lemma LengthStep(ps: seq<Pointer>, total: int, m: nat, d_off: int)
    requires m < |ps| && Lengths(ps[..m + 1], d_off) == Lengths(ps, total)[..m + 1]
    ensures var p := ps[m];
            var len := if p.mode != DIRECT then 8 else if d_off > 0 then d_off - p.addr else 0;
            && Measured(ps, total)[m] == Item2(p.id, p.mode, p.addr, len)
            && Lengths(ps[..m], if p.mode == DIRECT && d_off > 0 then d_off - len else d_off) == Lengths(ps, total)[..m]
            && Immediates(ps[..m + 1]) == Immediates(ps[..m]) + if p.mode != DIRECT then 1 else 0
  {
    var front, ls := ps[..m + 1], Lengths(ps, total);
    assert front[..m] == ps[..m];
    assert ls[..m + 1][..m] == ls[..m] && ls[..m + 1][m] == ls[m];
  }

  lemma ToItem2Pop(ps: seq<Pointer>, m: nat, rest: seq<Item2>, x: Item2)
    requires m < |ps| && ToItem2(ps[..m + 1]) == rest + [x]
    ensures x == Item2(ps[m].id, ps[m].mode, ps[m].addr, 0) && rest == ToItem2(ps[..m])
  {
    var t := ToItem2(ps[..m + 1]);
    assert x == t[m] && rest == t[..m];
  }

  /**
  Pours the pointers into the second stack, top first, and gives each its length; the second stack holds them the
  other way round, the first item on top.
   */
  method FunnelLengths(src: Stack, dst: Stack, ghost ps: seq<Pointer>, total: int) returns (d_imm: int)
    requires src.Valid() && dst.Valid() && src != dst && src.data == ToItem2(ps) && dst.data == []
    modifies src, dst
    ensures src.Valid() && dst.Valid() && src.data == [] && dst.data == Reversed(Measured(ps, total))
    ensures d_imm == Immediates(ps)
  {
    hide ToItem2, Measured, Lengths, Immediates;
    ghost var w, m := Measured(ps, total), |ps|;
    var d_off := total;
    d_imm := 0;
    assert ps[..m] == ps && Lengths(ps, total)[..m] == Lengths(ps, total) && w[m..] == [];
    while src.size > 0
      invariant src.Valid() && dst.Valid() && m == |src.data| <= |ps| && src.data == ToItem2(ps[..m])
      invariant Lengths(ps[..m], d_off) == Lengths(ps, total)[..m]
      invariant Immediates(ps[..m]) + d_imm == Immediates(ps)
      invariant dst.data == Reversed(w[m..])
      decreases src.size
    {
      var x := src.Pop();
      m := m - 1;
      LengthStep(ps, total, m, d_off);
      ToItem2Pop(ps, m, src.data, x);
      ReversedDrop(w, m);
      hide Reversed;
      if x.mode == DIRECT {
        if d_off > 0 {
          x := x.(len := d_off - x.off);
          d_off := d_off - x.len;
        } else {
          x := x.(len := 0);
        }
      } else {
        x := x.(len := 8);
        d_imm := d_imm + 1;
      }
      dst.Push(x);
    }
    NoImmediates(ps);
    assert w[0..] == w;
  }

  lemma NoImmediates(ps: seq<Pointer>)
    ensures Immediates(ps[..0]) == 0
  {}

  // ---- the resumable walk that copies item bytes

  /**
  Every bucket holds at most one packet; chunks are the payload bytes bucket by bucket, none of them empty for a
  packet.
   */
  ghost predicate Spread(ss: seq<seq<Packet>>, chunks: seq<seq<Byte>>, c: seq<Packet>)
    reads c
  {
    && |ss| == |chunks|
    && forall i :: 0 <= i < |ss| ==>
         if |ss[i]| == 0 then chunks[i] == []
         else
           && |ss[i]| == 1 && ss[i][0] in c && ss[i][0].Unpacked()
           && ss[i][0].Read().payload == chunks[i] && chunks[i] != []
  }

  /** A place where the walk may stop between two calls. */
  ghost predicate Resting(chunks: seq<seq<Byte>>, coi: int, cpos: int, state: TraverseState, d_off: int) {
    && 0 <= d_off
    && (state == GET_OBJECT ==> 0 <= coi <= |chunks| && (d_off > 0 ==> coi < |chunks| && d_off < |chunks[coi]|))
    && (state == NEXT_PACKET ==> 0 <= coi < |chunks| && cpos == 0 && d_off == 0 && chunks[coi] != [])
    && (state == GET_PACKET ==> 0 <= coi < |chunks| && cpos == 0 && d_off < |chunks[coi]|)
    && (state == END ==> coi == |chunks| && d_off == 0)
  }

  /** The number of bytes in the first i chunks. */
  function BytesBefore(chunks: seq<seq<Byte>>, i: int): nat {
    if 0 <= i <= |chunks| then |Concat(chunks[..i])| else 0
  }

  /** The number of payload bytes passed. */
  function Passed(chunks: seq<seq<Byte>>, coi: int, state: TraverseState, d_off: int): int {
    if state == NEXT_PACKET then BytesBefore(chunks, coi + 1) else BytesBefore(chunks, coi) + d_off
  }

  /** Moving on passes no bytes, and stops at the end only when all are passed. */
  lemma AdvanceRests(ss: seq<seq<Packet>>, chunks: seq<seq<Byte>>, c: seq<Packet>, coi: int, cpos: int,
                     state: TraverseState, d_off: int)
    requires Spread(ss, chunks, c) && Resting(chunks, coi, cpos, state, d_off)
    requires state == GET_OBJECT || state == NEXT_PACKET
    ensures Leavable(ss, coi, cpos, state)
    ensures var (coi', cpos', state') := NextPlace(ss, coi, cpos, state);
            && Resting(chunks, coi', cpos', state', d_off)
            && Passed(chunks, coi', state', d_off) == Passed(chunks, coi, state, d_off)
            && 0 <= coi <= coi' <= |ss| && (coi == coi' ==>
              state == GET_OBJECT && (state' == GET_PACKET || state' == END))
  {
    hide Concat;
    if coi < |chunks| { ConcatStep(chunks, coi); }
  }

  /** At the end nothing is left. */
  lemma EndPassedAll(chunks: seq<seq<Byte>>, coi: int, cpos: int, d_off: int)
    requires Resting(chunks, coi, cpos, END, d_off)
    ensures Passed(chunks, coi, END, d_off) == |Concat(chunks)|
  {
    assert chunks[..|chunks|] == chunks;
  }

  /** Bytes of the current chunk are the next bytes of the heap. */
  lemma {:induction false} ChunkSlice(chunks: seq<seq<Byte>>, i: nat, off: nat, n: nat)
    requires i < |chunks| && off + n <= |chunks[i]|
    ensures var a := |Concat(chunks[..i])|;
            a + off + n <= |Concat(chunks)| && chunks[i][off..off + n] == Concat(chunks)[a + off..a + off + n]
  {
    var last := |chunks| - 1;
    if i < last {
      ChunkSlice(chunks[..last], i, off, n);
      assert chunks[..last][..i] == chunks[..i];
      var front, whole, a := Concat(chunks[..last]), Concat(chunks), |Concat(chunks[..i])| + off;
      assert whole[a..a + n] == front[a..a + n];
    } else {
      assert chunks[..i] + [chunks[i]] == chunks;
      var front, whole := Concat(chunks[..i]), Concat(chunks);
      assert whole == front + chunks[i];
      var x, y := whole[|front| + off..|front| + off + n], chunks[i][off..off + n];
      assert forall k :: 0 <= k < n ==> x[k] == y[k];
    }
  }

  lemma PayloadOf(p: Packet, payload: seq<Byte>)
    requires p.Unpacked() && payload == p.data[p.payload..p.payload + p.payload_len]
    ensures payload == p.Read().payload && |payload| == p.payload_len
  {}

  class Copier {
    const ht: HashTable
    const ig: ItemGroup
    var cstate: TraverseState
    var coi: int
    var cpos: int
    var d_off: int
    var d_remaining: int

    constructor (ht: HashTable, ig: ItemGroup)
      ensures this.ht == ht && this.ig == ig && fresh(this)
      ensures cstate == GET_OBJECT && coi == 0 && cpos == 0 && d_off == 0 && d_remaining == 0
    {
      this.ht, this.ig := ht, ig;
      cstate, coi, cpos, d_off, d_remaining := GET_OBJECT, 0, 0, 0, 0;
    }

    /**
    Copies what the packet has for the item taken last: 0 when the item and the packet are both used up, 1 when the
    item goes on in the next packet, 2 when the next item starts in this packet.
     */
    method CopyDirect(payload: seq<Byte>) returns (rtn: int)
      requires ig.items != [] && 0 <= d_off < |payload| && 0 <= d_remaining
      requires var r := if d_remaining == 0 then ig.i_len else d_remaining;
               r > 0 && |ig.items[|ig.items| - 1].data| + r == ig.i_len
      modifies this`d_off, this`d_remaining, ig`items
      ensures var r := if old(d_remaining) == 0 then ig.i_len else old(d_remaining);
              var cc := |payload| - old(d_off);
              var n, last := |old(ig.items)| - 1, old(ig.items)[|old(ig.items)| - 1];
              var src := payload[old(d_off)..old(d_off) + if r < cc then r else cc];
              && ig.items == old(ig.items)[..n] + [ApiItem(last.id, last.mode, last.data + src)]
              && rtn == (if r < cc then 2 else if r == cc then 0 else 1)
              && d_off == (if r < cc then old(d_off) + r else 0)
              && d_remaining == (if r < cc then 0 else r - cc)
    {
      var cc := |payload| - d_off;
      d_remaining := if d_remaining == 0 then ig.i_len else d_remaining;
      var mc := if |payload| <= d_remaining then cc else d_remaining;
      if cc == 0 { return 3; }
      if cc > |payload| { return -1; }
      if mc < cc {
        var ok := ig.Append(payload[d_off..d_off + mc]);
        if !ok { return -1; }
        d_off := d_off + mc;
        d_remaining := 0;
        return 2;
      } else {
        var ok := ig.Append(payload[d_off..d_off + cc]);
        if !ok { return -1; }
        d_off := 0;
        d_remaining := d_remaining - cc;
        return if d_remaining == 0 then 0 else 1;
      }
    }

    /** What must hold between two calls: the walk rests, and the item taken last has r bytes to go. */
    ghost predicate Midway(chunks: seq<seq<Byte>>, c: seq<Packet>, r: int)
      reads this, ig, ht, ht.os, c
    {
      && Spread(ht.os[..], chunks, c) && Resting(chunks, coi, cpos, cstate, d_off)
      && ig.items != [] && r > 0 && |ig.items[|ig.items| - 1].data| + r == ig.i_len
      && 0 <= d_remaining && r == (if d_remaining == 0 then ig.i_len else d_remaining)
      && Passed(chunks, coi, cstate, d_off) + r <= |Concat(chunks)|
    }

    /** Finds the next packet to copy from. */
    method FindPacket(ghost chunks: seq<seq<Byte>>, ghost c: seq<Packet>, ghost r: int)
      requires Midway(chunks, c, r)
      modifies this`coi, this`cpos, this`cstate
      ensures Midway(chunks, c, r) && cstate == GET_PACKET
      ensures Passed(chunks, coi, cstate, d_off) == old(Passed(chunks, coi, cstate, d_off))
    {
      hide Spread, Resting, Passed, NextPlace, Leavable, Concat;
      while cstate != GET_PACKET && cstate != END
        invariant Midway(chunks, c, r)
        invariant Passed(chunks, coi, cstate, d_off) == old(Passed(chunks, coi, cstate, d_off))
        decreases ht.os.Length - coi, cstate == GET_OBJECT
      {
        AdvanceRests(ht.os[..], chunks, c, coi, cpos, cstate, d_off);
        coi, cpos, cstate := Advance(ht, coi, cpos, cstate);
      }
      if cstate == END { EndPassedAll(chunks, coi, cpos, d_off); }
    }

    /** The callback of the walk, seen from the heap's bytes: it appends the next n bytes. */
    lemma CopyStep(chunks: seq<seq<Byte>>, c: seq<Packet>, r: int)
      requires Midway(chunks, c, r) && cstate == GET_PACKET
      ensures 0 <= coi < ht.os.Length && cpos == 0 && |ht.os[coi]| == 1 && ht.os[coi][0].Unpacked()
      ensures var p := ht.os[coi][0];
              var cc := p.payload_len - d_off;
              var n, at := if r < cc then r else cc, Passed(chunks, coi, cstate, d_off);
              && 0 <= d_off < p.payload_len && n > 0 && 0 <= at && at + n <= |Concat(chunks)|
              && p.Read().payload[d_off..d_off + n] == Concat(chunks)[at..at + n]
              && (r < cc ==> && Resting(chunks, coi, cpos, GET_OBJECT, d_off + r) == true
                             && Passed(chunks, coi, GET_OBJECT, d_off + r) == at + n)
              && (r >= cc ==> && Resting(chunks, coi, cpos, NEXT_PACKET, 0) == true
                              && Passed(chunks, coi, NEXT_PACKET, 0) == at + n)
    {
      hide Concat, Packet.Read;
      var p := ht.os[coi][0];
      assert p.Read().payload == chunks[coi] && |chunks[coi]| == p.payload_len by {
        PayloadOf(p, p.data[p.payload..p.payload + p.payload_len]);
      }
      var cc := p.payload_len - d_off;
      ChunkSlice(chunks, coi, d_off, if r < cc then r else cc);
      ConcatStep(chunks, coi);
    }

    /**
    One call of the resumable walk: copies the next n bytes of the heap to the item taken last; a positive result asks
    for another call.
     */
    method SingleTraverse(ghost chunks: seq<seq<Byte>>, ghost c: seq<Packet>, ghost r: int)
      returns (rtn: int, ghost n: int)
      requires Midway(chunks, c, r)
      modifies this`coi, this`cpos, this`cstate, this`d_off, this`d_remaining, ig`items
      ensures var at, k, last := old(Passed(chunks, coi, cstate, d_off)), |old(ig.items)| - 1,
        old(ig.items)[|old(ig.items)| - 1];
              && 0 < n <= r && 0 <= at && at + n <= |Concat(chunks)|
              && ig.items == old(ig.items)[..k] + [ApiItem(last.id, last.mode, last.data + Concat(chunks)[at..at + n])]
              && Passed(chunks, coi, cstate, d_off) == at + n
      ensures Spread(ht.os[..], chunks, c) == true && Resting(chunks, coi, cpos, cstate, d_off) == true
      ensures rtn > 0 <==> n < r
      ensures if rtn > 0 then d_remaining == r - n && Midway(chunks, c, r - n) else d_remaining == 0
    {
      hide Spread, Resting, Passed, Concat, Packet.Read;
      FindPacket(chunks, c, r);
      if cstate == END { return 0, 0; }
      CopyStep(chunks, c, r);
      var p := ht.os[coi][cpos];
      PayloadOf(p, p.data[p.payload..p.payload + p.payload_len]);
      n := if r < p.payload_len - d_off then r else p.payload_len - d_off;
      rtn := CopyDirect(p.data[p.payload..p.payload + p.payload_len]);
      if rtn < 0 { return -1, n; }
      // 0 and 1 go on to the next packet, 2 stays at this one, 3 starts the walk over
      coi := if rtn == 3 then 0 else coi;
      cstate := if rtn <= 1 then NEXT_PACKET else GET_OBJECT;
      rtn := if rtn == 2 then 0 else rtn;
    }

    /** Copies a whole item, however many packets it spans. */
    method CopyItem(ghost chunks: seq<seq<Byte>>, ghost c: seq<Packet>, ghost len: int)
      requires Midway(chunks, c, len) && len == ig.i_len
      modifies this`coi, this`cpos, this`cstate, this`d_off, this`d_remaining, ig`items
      ensures var at, k, last := old(Passed(chunks, coi, cstate, d_off)), |old(ig.items)| - 1,
        old(ig.items)[|old(ig.items)| - 1];
              && 0 <= at && at + len <= |Concat(chunks)|
              && ig.items == old(ig.items)[..k] + [ApiItem(last.id, last.mode, Concat(chunks)[at..at + len])]
              && Passed(chunks, coi, cstate, d_off) == at + len
      ensures Spread(ht.os[..], chunks, c) == true && Resting(chunks, coi, cpos, cstate, d_off) == true
        && d_remaining == 0
    {
      hide Spread, Resting, Passed, Concat;
      ghost var at, flat := Passed(chunks, coi, cstate, d_off), Concat(chunks);
      ghost var front, last := ig.items[..|ig.items| - 1], ig.items[|ig.items| - 1];
      ghost var done, left := 0, len;
      var rtn, n := SingleTraverse(chunks, c, left);
      done, left := n, left - n;
      assert [] + flat[at..at + done] == flat[at..at + done];
      while rtn > 0
        invariant 0 <= done && 0 <= at && at + done <= |flat| && left == len - done >= 0 && done > 0
        invariant ig.items == front + [ApiItem(last.id, last.mode, flat[at..at + done])]
        invariant Passed(chunks, coi, cstate, d_off) == at + done
        invariant Spread(ht.os[..], chunks, c) == true && Resting(chunks, coi, cpos, cstate, d_off) == true
        invariant if rtn > 0 then Midway(chunks, c, left) else left == 0 && d_remaining == 0
        decreases left
      {
        rtn, n := SingleTraverse(chunks, c, left);
        assert flat[at..at + done] + flat[at + done..at + done + n] == flat[at..at + done + n];
        done, left := done + n, left - n;
      }
    }

    /** The walk stands where item t starts. */
    ghost predicate WalkAt(chunks: seq<seq<Byte>>, c: seq<Packet>, ps: seq<Pointer>, t: nat)
      requires t <= |ps|
      reads this, ht.os, c
    {
      var flat := Concat(chunks);
      && d_remaining == 0
      && (flat != [] ==> && Spread(ht.os[..], chunks, c) && Resting(chunks, coi, cpos, cstate, d_off)
                         && Passed(chunks, coi, cstate, d_off) == CopiedTo(ps, t, |flat|))
    }

    lemma WalkFacts(chunks: seq<seq<Byte>>, c: seq<Packet>, ps: seq<Pointer>, t: nat, len: int)
      requires t < |ps| && WalkAt(chunks, c, ps, t) == true && Orderly(ps, |Concat(chunks)|) == true
      requires len == Lengths(ps, |Concat(chunks)|)[t]
      ensures d_remaining == 0
      ensures Concat(chunks) != [] ==>
        Spread(ht.os[..], chunks, c) == true && Resting(chunks, coi, cpos, cstate, d_off) == true
      ensures var at := CopiedTo(ps, t, |Concat(chunks)|);
              && (Concat(chunks) != [] ==> Passed(chunks, coi, cstate, d_off) == at)
              && (ps[t].mode == DIRECT ==> && 0 <= len && at + len <= |Concat(chunks)|
                                           && Concat(chunks)[at..at + len] == Extract(ps, t, Concat(chunks))
                                           && CopiedTo(ps, t + 1, |Concat(chunks)|) == at + len)
              && (ps[t].mode != DIRECT ==> len == 8 && CopiedTo(ps, t + 1, |Concat(chunks)|) == at)
    {
      hide Spread, Resting, Passed, Concat, Orderly, Lengths, Extract, CopiedTo;
      ItemStartsThere(ps, t, Concat(chunks));
    }

    /** Fills the item just taken from the arena. */
    method FillItem(x: Item2, ghost chunks: seq<seq<Byte>>, ghost c: seq<Packet>, ghost ps: seq<Pointer>, ghost t: nat)
      returns (ok: bool)
      requires t < |ps| && Orderly(ps, |Concat(chunks)|) == true && WalkAt(chunks, c, ps, t) == true && x.len > 0
      requires x == Measured(ps, |Concat(chunks)|)[t] && (ps[t].mode == DIRECT || ps[t].mode == IMMEDIATE)
      requires ig.items != [] && ig.items[|ig.items| - 1].data == [] && ig.i_len == x.len
      modifies this`coi, this`cpos, this`cstate, this`d_off, this`d_remaining, ig`items
      ensures ok && WalkAt(chunks, c, ps, t + 1)
      ensures var k, last := |old(ig.items)| - 1, old(ig.items)[|old(ig.items)| - 1];
              ig.items == old(ig.items)[..k] + [ApiItem(last.id, last.mode, Extract(ps, t, Concat(chunks)))]
    {
      hide Spread, Resting, Passed, Concat, CopiedTo, Lengths, Orderly, NextDirect, HostBytes;
      WalkFacts(chunks, c, ps, t, x.len);
      if x.mode == DIRECT {
        CopyItem(chunks, c, x.len);
      } else {
        ok := ig.Copy(HostBytes(x.off));
        if !ok { return false; }
      }
      return true;
    }
  }

  /** The group holds the first t items, and the arena has room for the others. */
  ghost predicate GroupOk(items: seq<ApiItem>, g_cd: bool, g_off: int, g_size: int, ps: seq<Pointer>, flat: seq<Byte>,
                          t: nat)
    requires t <= |ps|
  {
    && items == Outputs(ps, t, flat) && (g_cd <==> HasDescriptor(ps, t, flat))
    && g_off <= Sum(Lengths(ps, |flat|)[..t]) + ITEM_HEADER * t
    && g_size == |flat| + 8 * Immediates(ps) + ITEM_HEADER * |ps|
  }

  lemma GroupStep(items: seq<ApiItem>, g_cd: bool, g_off: int, g_size: int, ps: seq<Pointer>, flat: seq<Byte>, t: nat)
    requires t < |ps| && Orderly(ps, |flat|) && GroupOk(items, g_cd, g_off, g_size, ps, flat, t)
    ensures var len, data := Lengths(ps, |flat|)[t], Extract(ps, t, flat);
            && len >= 0 && g_off + len + ITEM_HEADER <= g_size && (len == 0 <==> data == [])
            && (len == 0 ==> GroupOk(items, g_cd, g_off, g_size, ps, flat, t + 1))
            && (len > 0 ==> GroupOk(items + [ApiItem(ps[t].id, ps[t].mode, data)], g_cd || ps[t].id == DESCRIPTOR_ID,
                                    g_off + len + ITEM_HEADER, g_size, ps, flat, t + 1))
  {
    hide Orderly, Lengths, Sum, Immediates, CopiedTo, NextDirect, Extract;
    ItemStartsThere(ps, t, flat);
    ArenaSuffices(ps, |flat|, t);
  }

  lemma MeasuredAt(ps: seq<Pointer>, total: int, t: nat)
    requires t < |ps|
    ensures Measured(ps, total)[t] == Item2(ps[t].id, ps[t].mode, ps[t].addr, Lengths(ps, total)[t])
  {}

  /** Makes an item of the group out of a measured pointer, unless it is empty. */
  method Convert(z: Copier, x: Item2, ghost chunks: seq<seq<Byte>>, ghost c: seq<Packet>, ghost ps: seq<Pointer>,
                 ghost t: nat)
    returns (ok: bool)
    requires t < |ps| && Orderly(ps, |Concat(chunks)|) == true && z.WalkAt(chunks, c, ps, t) == true
    requires GroupOk(z.ig.items, z.ig.g_cd, z.ig.g_off, z.ig.g_size, ps, Concat(chunks), t) == true
    requires x == Measured(ps, |Concat(chunks)|)[t] && (ps[t].mode == DIRECT || ps[t].mode == IMMEDIATE)
    modifies z, z.ig
    ensures ok && z.WalkAt(chunks, c, ps, t + 1) == true
    ensures GroupOk(z.ig.items, z.ig.g_cd, z.ig.g_off, z.ig.g_size, ps, Concat(chunks), t + 1) == true
  {
    hide *;
    var ig := z.ig;
    ghost var items0, cd0, off0, flat := ig.items, ig.g_cd, ig.g_off, Concat(chunks);
    GroupStep(items0, cd0, off0, ig.g_size, ps, flat, t);
    MeasuredAt(ps, |flat|, t);
    if x.len == 0 {
      SkipItem(z, chunks, c, ps, t);
      return true;
    }
    ok := ig.NewItem(x.len, x.id, x.mode);
    if !ok { return false; }
    assert ig.items == items0 + [ApiItem(x.id, x.mode, [])] && ig.items[..|items0|] == items0;
    ok := z.FillItem(x, chunks, c, ps, t);
    if !ok { return false; }
    if x.id == DESCRIPTOR_ID { ig.g_cd := true; }
  }

  lemma SkipItem(z: Copier, chunks: seq<seq<Byte>>, c: seq<Packet>, ps: seq<Pointer>, t: nat)
    requires t < |ps| && Orderly(ps, |Concat(chunks)|) && z.WalkAt(chunks, c, ps, t)
      && Lengths(ps, |Concat(chunks)|)[t] == 0
    ensures z.WalkAt(chunks, c, ps, t + 1)
  {
    hide Spread, Resting, Passed, Concat, Orderly;
    z.WalkFacts(chunks, c, ps, t, 0);
  }

  // ---- the whole heap

  /** Buckets with at most one packet each. */
  predicate Single<T>(ss: seq<seq<T>>) {
    forall i :: 0 <= i < |ss| ==> |ss[i]| <= 1
  }

  lemma SpreadMore(ss: seq<seq<Packet>>, chunks: seq<seq<Byte>>, c: seq<Packet>, chunk: seq<Byte>, i: nat)
    requires i < |ss| && Spread(ss[..i], chunks, c)
    requires if |ss[i]| == 0 then chunk == []
             else
               && |ss[i]| == 1 && ss[i][0] in c && ss[i][0].Unpacked()
               && ss[i][0].Read().payload == chunk && chunk != []
    ensures Spread(ss[..i + 1], chunks + [chunk], c)
  {
    hide Packet.Unpacked, Packet.Read;
    var tt, more := ss[..i + 1], chunks + [chunk];
    forall k | 0 <= k < i ensures tt[k] == ss[..i][k] && more[k] == chunks[k] {}
  }

  lemma BytesMore(ms: seq<Message>, m: nat)
    requires m < |ms|
    ensures BytesOf(ms[..m + 1]) == BytesOf(ms[..m]) + ms[m].payload
  {
    assert ms[..m + 1][..m] == ms[..m];
  }

  lemma NoChunks(ss: seq<seq<Packet>>, c: seq<Packet>, ms: seq<Message>)
    ensures Concat(ss[..0]) == [] && Spread(ss[..0], [], c) && Concat<Byte>([]) == BytesOf(ms[..0])
  {}

  lemma OnlyPacket(ss: seq<seq<Packet>>, c: seq<Packet>, ms: seq<Message>, i: nat)
    requires i < |ss| && ss[i] != [] && Single(ss) && c == Concat(ss) && Holds(c, ms)
    ensures var m := |Concat(ss[..i])|;
      && m < |ms| && |ss[i]| == 1 && ss[i][0] in c && ss[i][0].Unpacked() && ss[i][0].Read() == ms[m]
  {
    hide Concat, Packet.Unpacked, Packet.Read;
    ConcatAt(ss, i, 0);
    assert c[|Concat(ss[..i])|] == ss[i][0];
  }

  /** The payloads laid out by bucket. */
  lemma {:induction false} ChunksOf(ss: seq<seq<Packet>>, c: seq<Packet>, ms: seq<Message>, i: nat)
    returns (chunks: seq<seq<Byte>>)
    requires i <= |ss| && Single(ss) && c == Concat(ss) && Holds(c, ms)
    requires forall k :: 0 <= k < |ms| ==> ms[k].payload != []
    ensures |Concat(ss[..i])| <= |ms| && Spread(ss[..i], chunks, c)
    ensures Concat(chunks) == BytesOf(ms[..|Concat(ss[..i])|])
  {
    hide *;
    if i == 0 {
      chunks := [];
      NoChunks(ss, c, ms);
    } else {
      var front := ChunksOf(ss, c, ms, i - 1);
      var m := |Concat(ss[..i - 1])|;
      ConcatStep(ss, i - 1);
      if |ss[i - 1]| == 0 {
        chunks := front + [[]];
        SpreadMore(ss, front, c, [], i - 1);
        ConcatPush(front, []);
      } else {
        OnlyPacket(ss, c, ms, i - 1);
        BytesMore(ms, m);
        chunks := front + [ms[m].payload];
        SpreadMore(ss, front, c, ms[m].payload, i - 1);
        ConcatPush(front, ms[m].payload);
      }
    }
  }

  lemma ConcatPush<T>(ss: seq<seq<T>>, s: seq<T>)
    ensures Concat(ss + [s]) == Concat(ss) + s
  {
    assert (ss + [s])[..|ss|] == ss;
  }

  lemma {:induction false} PointersEncodable(data: seq<Byte>, n: nat)
    requires 8 * n + 8 <= |data|
    ensures forall p :: p in UserPointers(Pointers(data, n)) ==> Encodable(p)
  {
    if n > 0 {
      PointersEncodable(data, n - 1);
      var ps := Pointers(data, n);
      assert ps[..n - 1] == Pointers(data, n - 1);
    }
  }

  lemma {:induction false} AllEncodable(c: seq<Packet>, ms: seq<Message>, k: nat)
    requires Holds(c, ms) == true && k <= |ms|
    ensures forall p :: p in PointersOf(ms[..k]) ==> Encodable(p)
  {
    hide *;
    if k == 0 {
      NoMessages(ms);
    } else {
      AllEncodable(c, ms, k - 1);
      PointersMore(ms, k - 1);
      ItemsEncodable(c, ms, k - 1);
    }
  }

  lemma ItemsEncodable(c: seq<Packet>, ms: seq<Message>, k: nat)
    requires Holds(c, ms) && k < |ms|
    ensures forall p :: p in ms[k].items ==> Encodable(p)
  {
    hide UserPointers, Encodable;
    PointersEncodable(c[k].data, c[k].n_items);
  }

  lemma NoMessages(ms: seq<Message>)
    ensures PointersOf(ms[..0]) == []
  {}

  lemma PointersMore(ms: seq<Message>, k: nat)
    requires k < |ms|
    ensures PointersOf(ms[..k + 1]) == PointersOf(ms[..k]) + ms[k].items
  {
    assert ms[..k + 1][..k] == ms[..k];
  }

  lemma SameEnds<T>(a: seq<T>, x: T, b: seq<T>, y: T)
    requires a + [x] == b + [y]
    ensures a == b && x == y
  {
    var s := a + [x];
    assert a == s[..|s| - 1] && b == s[..|s| - 1] && x == s[|s| - 1] && y == s[|s| - 1];
  }

  /** The items from t on wait in the stack, item t on top. */
  ghost predicate Waiting(src: Stack, w: seq<Item2>, t: nat)
    reads src
  {
    src.Valid() && t <= |w| && src.data == Reversed(w[t..]) && |src.data| == |w| - t
  }

  lemma PoppedNext(src: Stack, was: seq<Item2>, x: Item2, w: seq<Item2>, t: nat)
    requires src.Valid() && was == src.data + [x] && t < |w| && was == Reversed(w[t..])
    ensures x == w[t] && Waiting(src, w, t + 1)
  {
    ReversedDrop(w, t);
    SameEnds(src.data, x, Reversed(w[t + 1..]), w[t]);
  }

  /** Takes the next item out of the stack and converts it. */
  method PopConvert(z: Copier, src: Stack, ghost chunks: seq<seq<Byte>>, ghost c: seq<Packet>, ghost ps: seq<Pointer>,
                    ghost t: nat)
    returns (ok: bool)
    requires t < |ps| && Orderly(ps, |Concat(chunks)|) == true && z.WalkAt(chunks, c, ps, t) == true
    requires GroupOk(z.ig.items, z.ig.g_cd, z.ig.g_off, z.ig.g_size, ps, Concat(chunks), t) == true
    requires Waiting(src, Measured(ps, |Concat(chunks)|), t) && (ps[t].mode == DIRECT || ps[t].mode == IMMEDIATE)
    modifies z, z.ig, src
    ensures ok && z.WalkAt(chunks, c, ps, t + 1) == true
    ensures GroupOk(z.ig.items, z.ig.g_cd, z.ig.g_off, z.ig.g_size, ps, Concat(chunks), t + 1) == true
    ensures Waiting(src, Measured(ps, |Concat(chunks)|), t + 1) == true
  {
    hide Reversed, Measured, Copier.WalkAt, GroupOk, Concat, Orderly, Spread;
    SeqAllocated(c);
    ghost var w, was := Measured(ps, |Concat(chunks)|), src.data;
    var x := src.Pop();
    PoppedNext(src, was, x, w, t);
    ok := Convert(z, x, chunks, c, ps, t);
  }

  lemma WaitingSize(src: Stack, w: seq<Item2>, t: nat)
    requires Waiting(src, w, t)
    ensures src.size == |w| - t && src.Valid() && (t == |w| ==> src.data == [])
  {}

  /** Pours the measured items out of the second stack, the first item first, into the group. */
  method FunnelConvert(z: Copier, src: Stack, ghost chunks: seq<seq<Byte>>, ghost c: seq<Packet>,
                       ghost ps: seq<Pointer>)
    returns (ok: bool)
    requires Orderly(ps, |Concat(chunks)|) == true && z.WalkAt(chunks, c, ps, 0) == true
    requires GroupOk(z.ig.items, z.ig.g_cd, z.ig.g_off, z.ig.g_size, ps, Concat(chunks), 0) == true
    requires Waiting(src, Measured(ps, |Concat(chunks)|), 0) == true
    requires forall i :: 0 <= i < |ps| ==> ps[i].mode == DIRECT || ps[i].mode == IMMEDIATE
    modifies z, z.ig, src
    ensures ok && src.Valid() && src.data == []
    ensures GroupOk(z.ig.items, z.ig.g_cd, z.ig.g_off, z.ig.g_size, ps, Concat(chunks), |ps|) == true
  {
    hide *;
    ghost var w, t := Measured(ps, |Concat(chunks)|), 0;
    assert |w| == |ps|;
    WaitingSize(src, w, t);
    while src.size > 0
      invariant t <= |ps| && Waiting(src, w, t) == true && src.size == |ps| - t
      invariant z.WalkAt(chunks, c, ps, t) == true
      invariant GroupOk(z.ig.items, z.ig.g_cd, z.ig.g_off, z.ig.g_size, ps, Concat(chunks), t) == true
      decreases |ps| - t
    {
      ok := PopConvert(z, src, chunks, c, ps, t);
      if !ok { return false; }
      t := t + 1;
      WaitingSize(src, w, t);
    }
    WaitingSize(src, w, t);
    return true;
  }

  /**
  A heap that can be taken apart: the bytes counted are the payloads, the direct items tile them, and if there are any
  bytes then every packet has some and a bucket of its own.
   */
  ghost predicate Complete<T>(ss: seq<seq<T>>, ms: seq<Message>, count: int) {
    && Orderly(PointersOf(ms), |BytesOf(ms)|) && count == |BytesOf(ms)|
    && (BytesOf(ms) != [] ==> Single(ss) && forall k :: 0 <= k < |ms| ==> ms[k].payload != [])
  }

  /** What the receiver makes of a heap: nothing if it carries no items. */
  ghost predicate Delivered(ig: ItemGroup?, ms: seq<Message>)
    reads ig
  {
    var ps, flat := PointersOf(ms), BytesOf(ms);
    if ps == [] then ig == null
    else ig != null && ig.items == Outputs(ps, |ps|, flat) && (ig.g_cd <==> HasDescriptor(ps, |ps|, flat))
  }

  /** The walk over the packets, ready to start. */
  lemma ReadyToWalk(z: Copier, ms: seq<Message>, count: int) returns (chunks: seq<seq<Byte>>)
    requires Holds(z.ht.Contents(), ms) && Complete(z.ht.os[..], ms, count)
    requires z.cstate == GET_OBJECT && z.coi == 0 && z.cpos == 0 && z.d_off == 0 && z.d_remaining == 0
    ensures Concat(chunks) == BytesOf(ms) && z.WalkAt(chunks, z.ht.Contents(), PointersOf(ms), 0)
  {
    var ss, c := z.ht.os[..], z.ht.Contents();
    if BytesOf(ms) == [] {
      chunks := [];
    } else {
      chunks := ChunksOf(ss, c, ms, |ss|);
      assert ss[..|ss|] == ss && ms[..|ms|] == ms && chunks[..0] == [];
    }
  }

  lemma GroupStart(ps: seq<Pointer>, flat: seq<Byte>, g_size: int)
    requires g_size == |flat| + 8 * Immediates(ps) + ITEM_HEADER * |ps|
    ensures GroupOk([], false, 0, g_size, ps, flat, 0)
  {
    assert Lengths(ps, |flat|)[..0] == [];
  }

  lemma ModesOk(c: seq<Packet>, ms: seq<Message>)
    requires Holds(c, ms)
    ensures var ps := PointersOf(ms); forall i :: 0 <= i < |ps| ==> ps[i].mode == DIRECT || ps[i].mode == IMMEDIATE
  {
    AllEncodable(c, ms, |ms|);
    assert ms[..|ms|] == ms;
    hide PointersOf, Holds;
    var ps := PointersOf(ms);
    forall i | 0 <= i < |ps| ensures ps[i].mode == DIRECT || ps[i].mode == IMMEDIATE { assert ps[i] in ps; }
  }

  lemma IsDelivered(ig: ItemGroup, ms: seq<Message>)
    requires PointersOf(ms) != []
    requires GroupOk(ig.items, ig.g_cd, ig.g_off, ig.g_size, PointersOf(ms), BytesOf(ms), |PointersOf(ms)|)
    ensures Delivered(ig, ms)
  {}

  lemma CompleteFacts<T>(ss: seq<seq<T>>, ms: seq<Message>, count: int)
    requires Complete(ss, ms, count)
    ensures Orderly(PointersOf(ms), |BytesOf(ms)|) == true && count == |BytesOf(ms)|
  {}

  /** Makes the item group: an arena for the heap and the immediate values, then the items one by one. */
  method MakeGroup(ht: HashTable, s2: Stack, imm: int, ghost ms: seq<Message>) returns (ig: ItemGroup?)
    requires Holds(ht.Contents(), ms) == true && Complete(ht.os[..], ms, ht.data_count) == true
    requires Waiting(s2, Measured(PointersOf(ms), |BytesOf(ms)|), 0) == true && imm == Immediates(PointersOf(ms))
    modifies s2
    ensures s2.Valid() && s2.data == [] && (ig == null || fresh(ig)) && Delivered(ig, ms) == true
  {
    hide PointersOf, BytesOf, Concat, Orderly, Complete, Holds, GroupOk, Copier.WalkAt, Waiting, Measured, Immediates,
      Delivered;
    ghost var c, ps, flat := ht.Contents(), PointersOf(ms), BytesOf(ms);
    SeqAllocated(c);
    ModesOk(c, ms);
    WaitingSize(s2, Measured(ps, |flat|), 0);
    CompleteFacts(ht.os[..], ms, ht.data_count);
    if s2.size == 0 {
      NoneDelivered(ms);
      return null;
    }
    var g := new ItemGroup(ht.data_count + imm * 8, s2.size);
    var z := new Copier(ht, g);
    ghost var chunks := ReadyToWalk(z, ms, ht.data_count);
    GroupStart(ps, flat, g.g_size);
    var ok := FunnelConvert(z, s2, chunks, c, ps);
    if !ok { return null; }
    IsDelivered(g, ms);
    return g;
  }

  lemma NoneDelivered(ms: seq<Message>)
    requires PointersOf(ms) == []
    ensures Delivered(null, ms)
  {}

  lemma DeliveredMeans(ig: ItemGroup?, ms: seq<Message>)
    requires Delivered(ig, ms) && Orderly(PointersOf(ms), |BytesOf(ms)|)
    ensures ig == null <==> PointersOf(ms) == []
    ensures ig != null ==> Conveys(ig.items, PointersOf(ms), BytesOf(ms)) && (ig.g_cd <==> AnyDescriptor(ig.items))
  {
    hide PointersOf, BytesOf, Orderly, Outputs, HasDescriptor, Conveys, AnyDescriptor;
    OutputsMean(PointersOf(ms), BytesOf(ms));
  }

  /** Takes a heap apart: collects the pointers, measures the items, copies their bytes. */
  method ProcessItems(ht: HashTable, s1: Stack, s2: Stack, ghost ms: seq<Message>) returns (ig: ItemGroup?)
    requires s1 != s2 && s1.Valid() && s2.Valid() && s1.data == [] && s2.data == []
    requires Holds(ht.Contents(), ms) && Complete(ht.os[..], ms, ht.data_count)
    modifies s1, s2
    ensures s1.Valid() && s2.Valid() && s1.data == [] && s2.data == []
    ensures (ig == null || fresh(ig)) && Delivered(ig, ms) == true && (ig == null <==> PointersOf(ms) == [])
    ensures ig != null ==>
              Conveys(ig.items, PointersOf(ms), BytesOf(ms)) == true && (ig.g_cd <==> AnyDescriptor(ig.items) == true)
  {
    hide Holds, Complete, PointersOf, BytesOf, Concat, Orderly, HashTable.Contents, Measured, Reversed, Delivered;
    ghost var c, ps, flat := ht.Contents(), PointersOf(ms), BytesOf(ms);
    SeqAllocated(c);
    var total := CoalesceItems(ht, s1, ms);
    var imm := FunnelLengths(s1, s2, ps, total);
    assert Measured(ps, |flat|)[0..] == Measured(ps, |flat|);
    CompleteFacts(ht.os[..], ms, ht.data_count);
    ig := MakeGroup(ht, s2, imm, ms);
    DeliveredMeans(ig, ms);
  }

  // ---- a slot of the heap store

  /** The buckets a heap finds: those of the slot, or none if the slot was another heap's. */
  function Found(os: seq<seq<Packet>>, own: bool): (ss: seq<seq<Packet>>)
    ensures |ss| == |os|
  {
    if own then os else seq(|os|, i => [])
  }

  /** A slot without an owner is taken; one held by another heap is emptied first, and then has no owner. */
  method GetTable(table: HashTable, hid: nat)
    requires table.bank.Valid()
    modifies table, table.os, table.bank
    ensures table.bank.Valid()
    ensures var own := old(table.data_id) < 0 || old(table.data_id) == hid;
            && table.os[..] == Found(old(table.os[..]), own)
            && table.data_id == (if own then hid else -1)
            && table.data_count == (if own then old(table.data_count) else 0)
            && table.items == (if own then old(table.items) else 0)
            && table.processing == (own && old(table.processing))
            && table.bank.top == (if own then old(table.bank.top)
                                  else Reversed(old(table.Contents())) + old(table.bank.top))
  {
    if table.data_id < 0 { table.data_id := hid; }
    if table.data_id != hid {
      table.Empty();
      assert table.os[..] == Found(old(table.os[..]), false);
    }
  }

  /** What becomes of a packet: Finished hands on the items and whether there is a descriptor among them. */
  datatype StoreResult = Rejected | Stored | Dropped | Finished(items: seq<ApiItem>, descriptor: bool)

  /** What a complete heap amounts to: nothing if it carries no items. */
  function Outcome(ms: seq<Message>): StoreResult {
    var ps, flat := PointersOf(ms), BytesOf(ms);
    if ps == [] then Dropped else Finished(Outputs(ps, |ps|, flat), HasDescriptor(ps, |ps|, flat))
  }

  /** Whether a packet with this payload completes the heap. */
  predicate Completes(count: int, heapLen: int, processing: bool) {
    count == heapLen && !processing
  }

  /** Processes the heap and empties the table. */
  method FinishHeap(t: HashTable, s1: Stack, s2: Stack, ghost ms: seq<Message>) returns (r: StoreResult)
    requires t.bank.Valid() && s1 != s2 && s1.Valid() && s2.Valid() && s1.data == [] && s2.data == []
    requires Holds(t.Contents(), ms) == true && Complete(t.os[..], ms, t.data_count) == true
    modifies t, t.os, t.bank, s1, s2
    ensures t.bank.Valid() && s1.Valid() && s2.Valid() && s1.data == [] && s2.data == []
    ensures t.IsEmpty() && t.bank.top == Reversed(old(t.Contents())) + old(t.bank.top)
    ensures r == Outcome(ms)
  {
    hide Holds, Complete, Reversed, HashTable.Contents, PointersOf, BytesOf, Outputs, HasDescriptor;
    var ig := ProcessItems(t, s1, s2, ms);
    r := if ig == null then Dropped else Finished(ig.items, ig.g_cd);
    t.Empty();
  }

  /** Counts the packet just added; the one that makes the byte count reach the heap length sets off the processing. */
  method CountPacket(t: HashTable, s1: Stack, s2: Stack, p: Packet, ghost ms: seq<Message>) returns (r: StoreResult)
    requires t.bank.Valid() && s1 != s2 && s1.Valid() && s2.Valid() && s1.data == [] && s2.data == []
    requires Holds(t.Contents(), ms) == true
    requires Completes(t.data_count + p.payload_len, p.heap_len, t.processing)
             ==> Complete(t.os[..], ms, t.data_count + p.payload_len) == true
    modifies t, t.os, t.bank, s1, s2
    ensures t.bank.Valid() && s1.Valid() && s2.Valid() && s1.data == [] && s2.data == []
    ensures if Completes(old(t.data_count) + p.payload_len, p.heap_len, old(t.processing)) then
              && t.IsEmpty() && t.bank.top == Reversed(old(t.Contents())) + old(t.bank.top)
              && r == Outcome(ms)
            else
              && r == Stored && t.os[..] == old(t.os[..]) && t.bank.top == old(t.bank.top)
              && t.data_count == old(t.data_count) + p.payload_len && t.data_id == old(t.data_id)
              && t.items == old(t.items) + p.n_items && t.processing == old(t.processing)
  {
    hide Holds, Complete, Concat, Reversed, Outcome;
    SeqAllocated(t.Contents());
    t.data_count := t.data_count + p.payload_len;
    t.items := t.items + p.n_items;
    if t.data_count == p.heap_len && !t.processing {
      t.processing := true;
      r := FinishHeap(t, s1, s2, ms);
    } else {
      r := Stored;
    }
  }

  /** The buckets with an object appended to bucket id, if there is one. */
  function Placed(ss: seq<seq<Packet>>, id: int, p: Packet): (r: seq<seq<Packet>>)
    ensures |r| == |ss|
  {
    if 0 <= id < |ss| then ss[id := ss[id] + [p]] else ss
  }

  /** Finds the table of the packet's heap and hashes the packet into it. */
  method PlacePacket(t: HashTable, p: Packet) returns (ok: bool)
    requires t.bank.Valid() && 0 <= p.payload_off && 0 <= p.heap_cnt
    modifies t, t.os, t.bank
    ensures t.bank.Valid()
    ensures var own := old(t.data_id) < 0 || old(t.data_id) == p.heap_cnt;
            var id := HashIndex(p.payload_off, p.heap_len, t.os.Length);
            && ok == (0 <= id < t.os.Length)
            && t.os[..] == Placed(Found(old(t.os[..]), own), id, p) && t.Contents() == Concat(t.os[..])
            && t.bank.top == (if own then old(t.bank.top) else Reversed(old(t.Contents())) + old(t.bank.top))
            && t.data_count == (if own then old(t.data_count) else 0) && t.data_id == (if own then p.heap_cnt else -1)
            && t.items == (if own then old(t.items) else 0) && t.processing == (own && old(t.processing))
  {
    hide Concat, Reversed, Found, HashIndex;
    GetTable(t, p.heap_cnt);
    ok := t.AddObject(p);
  }

  lemma OutcomeMeans<T>(ss: seq<seq<T>>, ms: seq<Message>, count: int)
    requires Complete(ss, ms, count)
    ensures var r := Outcome(ms);
      r.Finished? ==> Conveys(r.items, PointersOf(ms), BytesOf(ms)) && (r.descriptor <==> AnyDescriptor(r.items))
  {
    hide PointersOf, BytesOf, Orderly, Outputs, HasDescriptor, Conveys, AnyDescriptor;
    OutputsMean(PointersOf(ms), BytesOf(ms));
  }

  /**
  Adds a packet to its heap; the packet that makes the byte count reach the heap length sets off the processing, which
  hands on the item group and empties the table.
   */
  method StorePacket(t: HashTable, s1: Stack, s2: Stack, p: Packet, ghost ms: seq<Message>) returns (r: StoreResult)
    requires t.bank.Valid() && s1 != s2 && s1.Valid() && s2.Valid() && s1.data == [] && s2.data == []
    requires p.Unpacked() && 0 <= p.payload_off && 0 <= p.heap_cnt
    requires var own := t.data_id < 0 || t.data_id == p.heap_cnt;
             var id := HashIndex(p.payload_off, p.heap_len, t.os.Length);
             var tt := Placed(Found(t.os[..], own), id, p);
             var count := (if own then t.data_count else 0) + p.payload_len;
             0 <= id < t.os.Length ==>
               && Holds(Concat(tt), ms) == true
               && (Completes(count, p.heap_len, own && t.processing) ==> Complete(tt, ms, count) == true)
    modifies t, t.os, t.bank, s1, s2
    ensures t.bank.Valid() && s1.Valid() && s2.Valid() && s1.data == [] && s2.data == []
    ensures var own := old(t.data_id) < 0 || old(t.data_id) == p.heap_cnt;
            var id := HashIndex(p.payload_off, p.heap_len, t.os.Length);
            var tt := Placed(Found(old(t.os[..]), own), id, p);
            var count := (if own then old(t.data_count) else 0) + p.payload_len;
            var bank := if own then old(t.bank.top) else Reversed(old(t.Contents())) + old(t.bank.top);
            if !(0 <= id < t.os.Length) then
              r == Rejected && t.os[..] == tt && t.bank.top == bank
            else if Completes(count, p.heap_len, own && old(t.processing)) then
              r == Outcome(ms) && t.IsEmpty() && t.bank.top == Reversed(Concat(tt)) + bank
            else
              && r == Stored && t.os[..] == tt && t.bank.top == bank
              && t.data_count == count && t.data_id == (if own then p.heap_cnt else -1)
              && t.items == (if own then old(t.items) else 0) + p.n_items
              && t.processing == (own && old(t.processing))
    ensures r.Finished? ==>
              && Conveys(r.items, PointersOf(ms), BytesOf(ms)) == true
              && (r.descriptor <==> AnyDescriptor(r.items) == true)
  {
    hide *;
    ghost var own := t.data_id < 0 || t.data_id == p.heap_cnt;
    ghost var id := HashIndex(p.payload_off, p.heap_len, t.os.Length);
    ghost var tt := Placed(Found(t.os[..], own), id, p);
    ghost var count := (if own then t.data_count else 0) + p.payload_len;
    SeqAllocated(Concat(tt));
    if 0 <= id < t.os.Length && Completes(count, p.heap_len, own && t.processing) { OutcomeMeans(tt, ms, count); }
    var ok := PlacePacket(t, p);
    if !ok { return Rejected; }
    r := CountPacket(t, s1, s2, p, ms);
  }
}
