/**
The sender: a state machine cuts an item group into packets and hashes them into the heap's table.

In contracts `P(..) == true` means P(..): compared with `true`, a predicate is passed on as a whole instead of being
taken apart at every call.
 */
module Packetizer {
  import opened Bits
  import opened Sequences
  import opened SpeadLayout
  import opened HeapStore
  import opened Fragments
  import opened TableOrder

  // ---- the header of a packet, word by word

  function Bookkeeping(cnt: nat, heapLen: nat, off: nat, len: nat): (ps: seq<Pointer>)
    ensures |ps| == 4
  {
    [Pointer(IMMEDIATE, HEAP_CNT_ID, cnt), Pointer(IMMEDIATE, HEAP_LEN_ID, heapLen),
     Pointer(IMMEDIATE, PAYLOAD_OFF_ID, off), Pointer(IMMEDIATE, PAYLOAD_LEN_ID, len)]
  }

  /** The header word and the bookkeeping words written before any data is copied. */
  ghost predicate FrontLaid(data: seq<Byte>, nitems: nat, cnt: nat, heapLen: nat, off: nat) {
    && |data| == MAX_PACKET_LEN
    && Word(data, 0) == HeaderBuild(nitems)
    && forall j :: 0 <= j < 3 ==> Word(data, j + 1) == ItemBuild(Bookkeeping(cnt, heapLen, off, 0)[j])
  }

  /** The first m item pointers, after the bookkeeping words. */
  ghost predicate PointersLaid(data: seq<Byte>, ps: seq<Pointer>, m: nat) {
    m <= |ps| && |data| == MAX_PACKET_LEN && 8 * (m + 5) <= |data|
      && forall i :: 0 <= i < m ==> Word(data, i + 5) == ItemBuild(ps[i])
  }

  /** What a receiver finds in the header. */
  lemma HeaderReads(data: seq<Byte>, ps: seq<Pointer>, cnt: nat, heapLen: nat, off: nat, len: nat)
    requires FrontLaid(data, 4 + |ps|, cnt, heapLen, off) && PointersLaid(data, ps, |ps|)
    requires Word(data, 4) == ItemBuild(Pointer(IMMEDIATE, PAYLOAD_LEN_ID, len))
    requires cnt < ADDR_LIMIT && heapLen < ADDR_LIMIT && off < ADDR_LIMIT && len < ADDR_LIMIT
    requires forall i :: 0 <= i < |ps| ==> Encodable(ps[i])
    ensures Pointers(data, 4 + |ps|) == Bookkeeping(cnt, heapLen, off, len) + ps
  {
    var all, found := Bookkeeping(cnt, heapLen, off, len) + ps, Pointers(data, 4 + |ps|);
    forall j | 0 <= j < 4 + |ps| ensures found[j] == all[j] {
      HeaderWord(data, ps, cnt, heapLen, off, len, j);
      hide *;
      PointersAt(data, 4 + |ps|, j);
      PointerRoundTrip(all[j]);
    }
  }

  lemma HeaderWord(data: seq<Byte>, ps: seq<Pointer>, cnt: nat, heapLen: nat, off: nat, len: nat, j: nat)
    requires FrontLaid(data, 4 + |ps|, cnt, heapLen, off) && PointersLaid(data, ps, |ps|)
    requires Word(data, 4) == ItemBuild(Pointer(IMMEDIATE, PAYLOAD_LEN_ID, len))
    requires cnt < ADDR_LIMIT && heapLen < ADDR_LIMIT && off < ADDR_LIMIT && len < ADDR_LIMIT
    requires forall i :: 0 <= i < |ps| ==> Encodable(ps[i])
    requires j < 4 + |ps|
    ensures var all := Bookkeeping(cnt, heapLen, off, len) + ps;
            Encodable(all[j]) && Word(data, j + 1) == ItemBuild(all[j])
  {
    hide Word, ItemBuild;
    var all := Bookkeeping(cnt, heapLen, off, len) + ps;
    if j < 3 {
      assert all[j] == Bookkeeping(cnt, heapLen, off, 0)[j];
    } else if j >= 4 {
      var i := j - 4;
      assert all[j] == ps[i] && Word(data, i + 5) == ItemBuild(ps[i]);
    }
  }

  lemma {:induction false} LastAddrSkips(front: seq<Pointer>, ps: seq<Pointer>, id: nat, before: int)
    requires forall i :: 0 <= i < |ps| ==> ps[i].id != id
    ensures LastAddr(front + ps, id, before) == LastAddr(front, id, before)
  {
    if ps == [] {
      assert front + ps == front;
    } else {
      LastAddrSkips(front, ps[..|ps| - 1], id, before);
      assert (front + ps)[..|front + ps| - 1] == front + ps[..|ps| - 1];
    }
  }

  lemma {:induction false} UserPointersAfter(front: seq<Pointer>, ps: seq<Pointer>)
    requires forall i :: 0 <= i < |ps| ==> !Reserved(ps[i].id)
    ensures UserPointers(front + ps) == UserPointers(front) + ps
  {
    hide UserPointers, Reserved;
    if ps == [] {
      assert front + ps == front;
    } else {
      var init, p := ps[..|ps| - 1], ps[|ps| - 1];
      assert ps == init + [p];
      UserPointersAfter(front, init);
      OneMoreUser(front + init, p);
      AssocPush(front, init, p);
      AssocPush(UserPointers(front), init, p);
    }
  }

  lemma AssocPush<T>(a: seq<T>, b: seq<T>, x: T)
    ensures (a + b) + [x] == a + (b + [x])
  {}

  lemma OneMoreUser(ps: seq<Pointer>, p: Pointer)
    requires !Reserved(p.id)
    ensures UserPointers(ps + [p]) == UserPointers(ps) + [p]
  {
    assert (ps + [p])[..|ps|] == ps;
  }

  /** The bookkeeping words give the packet's fields, the others are its items. */
  lemma FieldsRead(ps: seq<Pointer>, cnt: nat, heapLen: nat, off: nat, len: nat, before: int)
    requires forall i :: 0 <= i < |ps| ==> !Reserved(ps[i].id)
    ensures var all := Bookkeeping(cnt, heapLen, off, len) + ps;
            && LastAddr(all, HEAP_CNT_ID, before) == cnt && LastAddr(all, HEAP_LEN_ID, before) == heapLen
            && LastAddr(all, PAYLOAD_OFF_ID, before) == off && LastAddr(all, PAYLOAD_LEN_ID, before) == len
            && UserPointers(all) == ps
  {
    var front := Bookkeeping(cnt, heapLen, off, len);
    UserPointersAfter(front, ps);
    BookkeepingRead(front, cnt, heapLen, off, len, before);
    hide LastAddr, UserPointers, Bookkeeping;
    LastAddrSkips(front, ps, HEAP_CNT_ID, before);
    LastAddrSkips(front, ps, HEAP_LEN_ID, before);
    LastAddrSkips(front, ps, PAYLOAD_OFF_ID, before);
    LastAddrSkips(front, ps, PAYLOAD_LEN_ID, before);
  }

  lemma BookkeepingRead(front: seq<Pointer>, cnt: nat, heapLen: nat, off: nat, len: nat, before: int)
    requires front == Bookkeeping(cnt, heapLen, off, len)
    ensures LastAddr(front, HEAP_CNT_ID, before) == cnt && LastAddr(front, HEAP_LEN_ID, before) == heapLen
    ensures LastAddr(front, PAYLOAD_OFF_ID, before) == off && LastAddr(front, PAYLOAD_LEN_ID, before) == len
    ensures UserPointers(front) == []
  {
    var a, b, c := front[..3], front[..2], front[..1];
    assert a[..2] == b && b[..1] == c && c[..0] == [];
    assert LastAddr(c, HEAP_CNT_ID, before) == cnt;
    assert LastAddr(b, HEAP_LEN_ID, before) == heapLen && LastAddr(b, HEAP_CNT_ID, before) == cnt;
    assert LastAddr(a, PAYLOAD_OFF_ID, before) == off && LastAddr(a, HEAP_LEN_ID, before) == heapLen
        && LastAddr(a, HEAP_CNT_ID, before) == cnt;
    assert UserPointers(c) == [] && UserPointers(b) == [] && UserPointers(a) == [];
  }

  // ---- writing the packet buffer

  /** Setting a word from the payload length on keeps the words before it. */
  lemma FrontKept(data: seq<Byte>, n: nat, w: nat, nitems: nat, cnt: nat, heapLen: nat, off: nat)
    requires FrontLaid(data, nitems, cnt, heapLen, off) && n >= 4 && 8 * n + 8 <= |data| && w < WORD_LIMIT
    ensures FrontLaid(SetWord(data, n, w), nitems, cnt, heapLen, off)
  {
    SetWordReads(data, n, w, 0);
    forall j: nat | j < 4 ensures Word(SetWord(data, n, w), j) == Word(data, j) { SetWordReads(data, n, w, j); }
  }

  lemma PointersKept(data: seq<Byte>, n: nat, w: nat, ps: seq<Pointer>, m: nat)
    requires PointersLaid(data, ps, m) && (n == 4 || n >= m + 5) && 8 * n + 8 <= |data| && w < WORD_LIMIT
    ensures PointersLaid(SetWord(data, n, w), ps, m)
  {
    forall j: nat | 5 <= j < m + 5 ensures Word(SetWord(data, n, w), j) == Word(data, j) {
      SetWordReads(data, n, w, j);
    }
  }

  /** Payload bytes do not touch the header. */
  lemma HeaderKept(data: seq<Byte>, at: nat, src: seq<Byte>, ps: seq<Pointer>, cnt: nat, heapLen: nat, off: nat)
    requires FrontLaid(data, 4 + |ps|, cnt, heapLen, off) && PointersLaid(data, ps, |ps|)
    requires 8 + 8 * (4 + |ps|) <= at && at + |src| <= |data|
    ensures FrontLaid(Splice(data, at, src), 4 + |ps|, cnt, heapLen, off)
    ensures PointersLaid(Splice(data, at, src), ps, |ps|)
    ensures Word(Splice(data, at, src), 4) == Word(data, 4)
  {
    forall j: nat | j < 5 + |ps| ensures Word(Splice(data, at, src), j) == Word(data, j) {
      SpliceReads(data, at, src, 8 * j, 8 * j + 8);
    }
  }

  // ---- the state machine

  datatype State = End | HashPacket | CopyData | InitPacket | AddItems | GetPacket

  function Rank(s: State): nat {
    match s
    case End => 0
    case HashPacket => 1
    case CopyData => 2
    case InitPacket => 3
    case AddItems => 4
    case GetPacket => 5
  }

  /** The item after the current one; -1 stands for no item, both at the start and past the end. */
  function NextItem(items: seq<Item>, itm: int): (r: int)
    ensures r == -1 || 0 <= r < |items|
  {
    if -1 <= itm && itm + 1 < |items| then itm + 1 else -1
  }

  function FragmentPointers(items: seq<Item>, k: nat): seq<Pointer> {
    if k == 0 then ItemPointers(items) else []
  }

  /**
  The encoding carries these items, this heap count and this heap length, and the item pointers fit a packet buffer.
   */
  ghost predicate InDomain(items: seq<Item>, hid: nat) {
    && hid < ADDR_LIMIT && |Flat(items)| < ADDR_LIMIT && 8 * (5 + |items|) <= MAX_PACKET_LEN
    && forall i :: 0 <= i < |items| ==> items[i].id < ID_LIMIT && items[i].id !in {1, 2, 3, 4, 6}
  }

  /** The first packet, which carries all item pointers, has room for a full payload, and the table has a bucket. */
  predicate Sendable(n: nat, size: nat, tLen: nat) {
    n > 0 && 8 + 8 * (4 + n) + size < MAX_PACKET_LEN && tLen > 0
  }

  /** The packets read as the first fragments of the heap. */
  ghost predicate Received(ps: seq<Packet>, items: seq<Item>, size: nat, hid: nat)
    reads ps
  {
    forall i :: 0 <= i < |ps| ==> && ps[i].Unpacked() && ps[i].Read() == Fragment(items, size, hid, i)
                                  && Faithful(ps[i], Fragment(items, size, hid, i))
  }

  /**
  The table holds the given packets in traversal order, the first fragments of the heap, and nothing after the bucket
  of the last one.
   */
  ghost predicate Stored(ht: HashTable, sent: seq<Packet>, items: seq<Item>, size: nat, hid: nat)
    requires size > 0
    reads ht, ht.os, sent
  {
    var h, k := |Flat(items)|, |sent|;
    && ht.Contents() == sent && Received(sent, items, size, hid)
    && (k == 0 ==> EmptyAfter(ht.os[..], -1))
    && (k > 0 ==>
          && Sendable(|items|, size, ht.os.Length)
          && EmptyAfter(ht.os[..], HashIndex(Offset(size, k - 1), h, ht.os.Length)))
  }

  ghost predicate EmptyAfter<T>(ss: seq<seq<T>>, i: int) {
    forall j :: 0 <= j < |ss| && i < j ==> ss[j] == []
  }

  ghost predicate Buffers(ps: seq<Packet>)
    reads ps`data
  {
    forall i :: 0 <= i < |ps| ==> |ps[i].data| == MAX_PACKET_LEN
  }

  lemma NotHashed(all: seq<Packet>, k: nat)
    requires Distinct(all)
    ensures k < |all| ==> all[k] !in all[..k]
  {}

  /** The four words written when an object is taken. */
  lemma FrontWritten(data: seq<Byte>, nitems: nat, cnt: nat, heapLen: nat, off: nat)
    requires |data| == MAX_PACKET_LEN
    ensures var a := SetWord(data, 0, HeaderBuild(nitems));
            var b := SetWord(a, 1, ItemBuild(Pointer(IMMEDIATE, HEAP_CNT_ID, cnt)));
            var c := SetWord(b, 2, ItemBuild(Pointer(IMMEDIATE, HEAP_LEN_ID, heapLen)));
            FrontLaid(SetWord(c, 3, ItemBuild(Pointer(IMMEDIATE, PAYLOAD_OFF_ID, off))), nitems, cnt, heapLen, off)
  {
    hide SetWord, Word, HeaderBuild, ItemBuild;
    var w := [HeaderBuild(nitems), ItemBuild(Pointer(IMMEDIATE, HEAP_CNT_ID, cnt)),
              ItemBuild(Pointer(IMMEDIATE, HEAP_LEN_ID, heapLen)), ItemBuild(Pointer(IMMEDIATE, PAYLOAD_OFF_ID, off))];
    var a := SetWord(data, 0, w[0]);
    var b := SetWord(a, 1, w[1]);
    var c := SetWord(b, 2, w[2]);
    forall j: nat | j < 4 ensures Word(SetWord(c, 3, w[3]), j) == w[j] {
      SetWordReads(c, 3, w[3], j);
      SetWordReads(b, 2, w[2], j);
      SetWordReads(a, 1, w[1], j);
      SetWordReads(data, 0, w[0], j);
    }
  }

  method WriteFront(o: Packet, nitems: nat, hid: nat, heap_len: nat, payload_off: nat)
    requires |o.data| == MAX_PACKET_LEN
    modifies o`data
    ensures |o.data| == MAX_PACKET_LEN && FrontLaid(o.data, nitems, hid, heap_len, payload_off)
  {
    FrontWritten(o.data, nitems, hid, heap_len, payload_off);
    hide Word, HeaderBuild, ItemBuild, FrontLaid;
    o.SetItem(0, HeaderBuild(nitems));
    o.SetItem(1, ItemBuild(Pointer(IMMEDIATE, HEAP_CNT_ID, hid)));
    o.SetItem(2, ItemBuild(Pointer(IMMEDIATE, HEAP_LEN_ID, heap_len)));
    o.SetItem(3, ItemBuild(Pointer(IMMEDIATE, PAYLOAD_OFF_ID, payload_off)));
  }

  /** Writes one pointer per item at the running sum of the item lengths. */
  method WritePointers(o: Packet, ig: seq<Item>, ghost nitems0: nat, ghost hid: nat, ghost heap_len: nat,
                       ghost payload_off: nat)
    returns (count: nat)
    requires |o.data| == MAX_PACKET_LEN && 8 * (5 + |ig|) <= MAX_PACKET_LEN
    requires FrontLaid(o.data, nitems0, hid, heap_len, payload_off)
    modifies o`data
    ensures |o.data| == MAX_PACKET_LEN && FrontLaid(o.data, nitems0, hid, heap_len, payload_off)
    ensures PointersLaid(o.data, ItemPointers(ig), |ig|) && count == |Flat(ig)|
  {
    var nitems, itm := 5, NextItem(ig, -1);
    count := 0;
    ghost var ps := ItemPointers(ig);
    while itm != -1
      invariant |o.data| == MAX_PACKET_LEN && FrontLaid(o.data, nitems0, hid, heap_len, payload_off)
      invariant itm == -1 || 0 <= itm < |ig|
      invariant nitems == 5 + (if itm == -1 then |ig| else itm)
      invariant count == if itm == -1 then |Flat(ig)| else |Flat(ig[..itm])|
      invariant PointersLaid(o.data, ps, nitems - 5)
      decreases if itm == -1 then 0 else |ig| - itm
    {
      ItemInFlat(ig, itm);
      PointerAt(ig, itm);
      var w := ItemBuild(Pointer(DIRECT, ig[itm].id, count));
      PointerWritten(o.data, nitems, ps, w, nitems0, hid, heap_len, payload_off);
      hide *;
      o.SetItem(nitems, w);
      nitems := nitems + 1;
      count := count + |ig[itm].data|;
      itm := NextItem(ig, itm);
      assert ig[..|ig|] == ig;
    }
  }

  lemma PointerWritten(data: seq<Byte>, n: nat, ps: seq<Pointer>, w: nat, nitems: nat, cnt: nat, heapLen: nat, off: nat)
    requires n >= 5 && n - 5 < |ps| && w == ItemBuild(ps[n - 5]) && 8 * n + 8 <= |data|
    requires FrontLaid(data, nitems, cnt, heapLen, off) && PointersLaid(data, ps, n - 5)
    ensures FrontLaid(SetWord(data, n, w), nitems, cnt, heapLen, off)
    ensures PointersLaid(SetWord(data, n, w), ps, n - 4)
  {
    FrontKept(data, n, w, nitems, cnt, heapLen, off);
    PointersKept(data, n, w, ps, n - 5);
    SetWordReads(data, n, w, n);
    hide FrontLaid, Word, ItemBuild, SetWord;
  }

  /** The next bytes of an item extend the payload by the next bytes of the heap. */
  lemma PayloadGrows(data: seq<Byte>, payload: nat, did: nat, flat: seq<Byte>, po: nat, src: seq<Byte>)
    requires payload + did + |src| <= |data| && po + did + |src| <= |flat|
    requires data[payload..payload + did] == flat[po..po + did] && src == flat[po + did..po + did + |src|]
    ensures var d := Splice(data, payload + did, src);
            d[payload..payload + (did + |src|)] == flat[po..po + (did + |src|)]
  {
    var d, hi := Splice(data, payload + did, src), payload + did + |src|;
    assert d[payload..payload + did] == data[payload..payload + did];
    assert d[payload..hi] == d[payload..payload + did] + d[payload + did..hi];
    assert flat[po..po + did] + flat[po + did..po + did + |src|] == flat[po..po + did + |src|];
  }

  /** The unread bytes of the current item are the next bytes of the heap. */
  lemma NextBytes(items: seq<Item>, itm: nat, ioff: nat, remain: nat, len: nat)
    requires itm < |items| && ioff + remain == |items[itm].data| && len <= remain
    ensures |Flat(items[..itm + 1])| <= |Flat(items)| && remain <= |Flat(items[..itm + 1])|
    ensures var pos := |Flat(items[..itm + 1])| - remain;
            items[itm].data[ioff..ioff + len] == Flat(items)[pos..pos + len]
  {
    ItemInFlat(items, itm);
    hide Flat;
    var flat, a, b := Flat(items), |Flat(items[..itm])|, |Flat(items[..itm + 1])|;
    SubSlice(flat, a, b, ioff, len);
  }

  lemma SubSlice(flat: seq<Byte>, a: nat, b: nat, i: nat, len: nat)
    requires a <= b <= |flat| && i + len <= b - a
    ensures flat[a..b][i..i + len] == flat[a + i..a + i + len]
  {
    var x, y := flat[a..b][i..i + len], flat[a + i..a + i + len];
    assert forall k :: 0 <= k < len ==> x[k] == y[k];
  }

  /** Copying more of the current item: the header stays, the payload grows by the next bytes of the heap. */
  lemma BytesCopied(data: seq<Byte>, payload: nat, did: nat, items: seq<Item>, itm: nat, ioff: nat, remain: nat,
                    len: nat, ps: seq<Pointer>, cnt: nat, heapLen: nat, po: nat)
    requires FrontLaid(data, 4 + |ps|, cnt, heapLen, po) && PointersLaid(data, ps, |ps|)
    requires payload == 8 + 8 * (4 + |ps|) && payload + did + len <= |data|
    requires itm < |items| && ioff + remain == |items[itm].data| && len <= remain
    requires po + did + remain == |Flat(items[..itm + 1])| && po + did <= |Flat(items)|
    requires data[payload..payload + did] == Flat(items)[po..po + did]
    ensures po + did + len <= |Flat(items)|
    ensures var d := Splice(data, payload + did, items[itm].data[ioff..ioff + len]);
            && FrontLaid(d, 4 + |ps|, cnt, heapLen, po) && PointersLaid(d, ps, |ps|)
            && d[payload..payload + (did + len)] == Flat(items)[po..po + (did + len)]
  {
    hide *;
    NextBytes(items, itm, ioff, remain, len);
    var src := items[itm].data[ioff..ioff + len];
    HeaderKept(data, payload + did, src, ps, cnt, heapLen, po);
    PayloadGrows(data, payload, did, Flat(items), po, src);
  }

  /** Writing the payload length keeps the rest of the packet. */
  lemma LengthWritten(data: seq<Byte>, w: nat, ps: seq<Pointer>, cnt: nat, heapLen: nat, po: nat, payload: nat,
                      did: nat)
    requires FrontLaid(data, 4 + |ps|, cnt, heapLen, po) && PointersLaid(data, ps, |ps|) && w < WORD_LIMIT
    requires payload == 8 + 8 * (4 + |ps|) && payload + did <= |data|
    ensures var d := SetWord(data, 4, w);
            && FrontLaid(d, 4 + |ps|, cnt, heapLen, po) && PointersLaid(d, ps, |ps|) && Word(d, 4) == w
            && d[payload..payload + did] == data[payload..payload + did]
  {
    FrontKept(data, 4, w, 4 + |ps|, cnt, heapLen, po);
    PointersKept(data, 4, w, ps, |ps|);
    SetWordReads(data, 4, w, 4);
    SpliceReads(data, 32, ToBytes(w, 8), payload, payload + did);
    hide FrontLaid, PointersLaid, Word;
  }

  /** The pointers of a packet are encodable and none is bookkeeping. */
  lemma FragmentPointersPlain(items: seq<Item>, k: nat, hid: nat)
    requires InDomain(items, hid)
    ensures var ps := FragmentPointers(items, k);
            |ps| <= |items| && forall i :: 0 <= i < |ps| ==> Encodable(ps[i]) && !Reserved(ps[i].id)
  {
    forall i | 0 <= i < |items|
      ensures Encodable(ItemPointers(items)[i]) && !Reserved(ItemPointers(items)[i].id)
    {
      PointerAt(items, i);
      FlatPrefix(items, i);
    }
  }

  /** What a receiver finds in the header of packet k. */
  lemma HeaderOfFragment(data: seq<Byte>, items: seq<Item>, k: nat, hid: nat, off: nat, len: nat)
    requires InDomain(items, hid) == true && off < ADDR_LIMIT && len < ADDR_LIMIT
    requires var ps := FragmentPointers(items, k);
             FrontLaid(data, 4 + |ps|, hid, |Flat(items)|, off) == true && PointersLaid(data, ps, |ps|) == true
    requires |data| == MAX_PACKET_LEN && Word(data, 4) == ItemBuild(Pointer(IMMEDIATE, PAYLOAD_LEN_ID, len))
    ensures var ps := FragmentPointers(items, k);
            && HeaderOk(Word(data, 0)) && HeaderItems(Word(data, 0)) == 4 + |ps| <= 4 + |items|
            && 8 * (4 + |ps|) + 8 <= |data|
            && Pointers(data, 4 + |ps|) == Bookkeeping(hid, |Flat(items)|, off, len) + ps
  {
    var ps := FragmentPointers(items, k);
    FragmentPointersPlain(items, k, hid);
    HeaderRoundTrip(4 + |ps|);
    hide Pointers, PointersLaid, HeaderOk, HeaderItems, HeaderBuild, Word, ItemBuild, Flat, Bookkeeping, Reserved;
    HeaderReads(data, ps, hid, |Flat(items)|, off, len);
  }

  /** A packet is complete when it is full or the heap is used up, and the heap is used up at the last packet. */
  lemma PieceReached(h: nat, size: nat, k: nat, did: nat)
    requires size > 0 && k < NumPieces(h, size) && did <= size && Offset(size, k) + did <= h
    requires Offset(size, k) + did < h ==> did == size
    ensures PieceEnd(h, size, k) == Offset(size, k) && PieceEnd(h, size, k + 1) == Offset(size, k) + did
    ensures Offset(size, k) + did == h <==> k + 1 == NumPieces(h, size)
    ensures Offset(size, k + 1) == Offset(size, k) + size
  {
    PieceBounds(h, size, k);
    assert (k + 1) * size == k * size + size;
  }

  /** Every fragment has a bucket in a table that has any. */
  lemma FragmentIndex(h: nat, size: nat, k: nat, tLen: nat)
    requires size > 0 && k < NumPieces(h, size)
    ensures 0 <= HashIndex(Offset(size, k), h, tLen) < tLen <==> tLen > 0
  {
    PieceBounds(h, size, k);
    if tLen > 0 { IndexInRange(Offset(size, k), h, tLen); }
  }

  /** The bytes of a finished packet carry the next fragment. */
  lemma IsFragment(data: seq<Byte>, items: seq<Item>, size: nat, hid: nat, k: nat, did: nat)
    requires size > 0 && k < NumPieces(|Flat(items)|, size) && InDomain(items, hid) == true && |data| == MAX_PACKET_LEN
    requires did <= size && Offset(size, k) + did <= |Flat(items)|
    requires Offset(size, k) + did < |Flat(items)| ==> did == size
    requires var ps, off := FragmentPointers(items, k), Offset(size, k);
             && HeaderOk(Word(data, 0)) && HeaderItems(Word(data, 0)) == 4 + |ps| && 8 + 8 * (4 + |ps|) + did <= |data|
             && Pointers(data, 4 + |ps|) == Bookkeeping(hid, |Flat(items)|, off, did) + ps
             && data[8 + 8 * (4 + |ps|)..8 + 8 * (4 + |ps|) + did] == Flat(items)[off..off + did]
    ensures Describes(data, Fragment(items, size, hid, k)) == true
  {
    hide Pointers, Bookkeeping, Flat, InDomain, Offset, PieceEnd, NumPieces, ItemPointers, UserPointers, LastAddr,
      HeaderOk;
    hide HeaderItems, Word, FragmentPointers, Reserved, Fragment, Encodable;
    var ps, off := FragmentPointers(items, k), Offset(size, k);
    FragmentPointersPlain(items, k, hid);
    PieceReached(|Flat(items)|, size, k, did);
    FieldsRead(ps, hid, |Flat(items)|, off, did, -1);
    FragmentIs(items, size, hid, k, did);
  }

  lemma FragmentIs(items: seq<Item>, size: nat, hid: nat, k: nat, did: nat)
    requires PieceEnd(|Flat(items)|, size, k) == Offset(size, k)
      && PieceEnd(|Flat(items)|, size, k + 1) == Offset(size, k) + did
    ensures Fragment(items, size, hid, k)
         == Message(hid, |Flat(items)|, Offset(size, k), FragmentPointers(items, k),
                    Flat(items)[Offset(size, k)..Offset(size, k) + did])
  {}

  lemma FragmentFields(o: Packet, items: seq<Item>, size: nat, hid: nat, k: nat)
    requires o.Unpacked() && o.Read() == Fragment(items, size, hid, k)
    ensures o.heap_len == |Flat(items)| && o.payload_off == Offset(size, k)
  {}

  /** The packet with index |sent| goes behind the packets hashed before it. */
  lemma Appended(ht: HashTable, sent: seq<Packet>, o: Packet, before: seq<seq<Packet>>, id: nat, items: seq<Item>,
                 size: nat, hid: nat)
    requires size > 0 && id < |before| && Concat(before) == sent
    requires id == HashIndex(Offset(size, |sent|), |Flat(items)|, |before|)
    requires |sent| == 0 ==> EmptyAfter(before, -1)
    requires |sent| > 0 ==> EmptyAfter(before, HashIndex(Offset(size, |sent| - 1), |Flat(items)|, |before|))
    requires ht.os[..] == before[id := before[id] + [o]] && Sendable(|items|, size, |before|)
    requires Received(sent, items, size, hid) && o.Unpacked() && o.Read() == Fragment(items, size, hid, |sent|)
    requires Faithful(o, Fragment(items, size, hid, |sent|)) == true
    ensures Stored(ht, sent + [o], items, size, hid) == true
  {
    var h := |Flat(items)|;
    if |sent| > 0 {
      MulMonotone(size, |sent| - 1, |sent|);
      IndexMonotone(Offset(size, |sent| - 1), Offset(size, |sent|), h, |before|);
    }
    hide HashIndex, Offset, Flat, Fragment, NumPieces, Concat, Describes, Faithful, EmptyAfter, Received,
      Packet.Unpacked, Packet.Read;
    var prev := if |sent| > 0 then HashIndex(Offset(size, |sent| - 1), h, |before|) else -1;
    AppendedLast(before, prev, id, o);
    ReceivedMore(sent, o, items, size, hid);
    assert (sent + [o])[..|sent|] == sent;
  }

  lemma AppendedLast(before: seq<seq<Packet>>, prev: int, id: nat, o: Packet)
    requires id < |before| && prev <= id && EmptyAfter(before, prev)
    ensures Concat(before[id := before[id] + [o]]) == Concat(before) + [o]
    ensures EmptyAfter(before[id := before[id] + [o]], id) == true
  {
    hide Concat;
    ConcatAppend(before, id, o);
  }

  lemma ReceivedMore(sent: seq<Packet>, o: Packet, items: seq<Item>, size: nat, hid: nat)
    requires Received(sent, items, size, hid) && o.Unpacked() && o.Read() == Fragment(items, size, hid, |sent|)
    requires Faithful(o, Fragment(items, size, hid, |sent|)) == true
    ensures Received(sent + [o], items, size, hid) == true
  {
    hide Fragment, Describes, Faithful, Packet.Unpacked, Packet.Read;
  }

  /** Hashes the next fragment into the table. */
  method InsertFragment(ht: HashTable, ghost sent: seq<Packet>, o: Packet, ghost items: seq<Item>, ghost size: nat,
                        ghost hid: nat)
    returns (ok: bool)
    requires size > 0 && |sent| < NumPieces(|Flat(items)|, size) && Stored(ht, sent, items, size, hid)
    requires o.Unpacked() && o.Read() == Fragment(items, size, hid, |sent|)
    requires Faithful(o, Fragment(items, size, hid, |sent|)) == true && |items| > 0
      && 8 + 8 * (4 + |items|) + size < MAX_PACKET_LEN
    modifies ht.os
    ensures ok == (ht.os.Length > 0) && Stored(ht, if ok then sent + [o] else sent, items, size, hid) == true
  {
    hide NumPieces, Flat, Concat, Offset, Received, EmptyAfter, HashIndex, Describes, Faithful, Packet.Unpacked,
      Packet.Read, Fragment;
    FragmentFields(o, items, size, hid, |sent|);
    ghost var before := ht.os[..];
    ghost var id := HashIndex(Offset(size, |sent|), |Flat(items)|, ht.os.Length);
    FragmentIndex(|Flat(items)|, size, |sent|, ht.os.Length);
    ok := ht.AddObject(o);
    if !ok {
      assert ht.os[..] == before;
      return;
    }
    Appended(ht, sent, o, before, id, items, size, hid);
  }

  /** The heap length and the number of pointers of the first packet. */
  method MeasureItems(ig: seq<Item>) returns (heap_len: nat, nitems: nat)
    ensures heap_len == |Flat(ig)| && nitems == 4 + |ig|
  {
    heap_len, nitems := 0, 4;
    var itm := NextItem(ig, -1);
    while itm != -1
      invariant itm == -1 || 0 <= itm < |ig|
      invariant nitems == 4 + (if itm == -1 then |ig| else itm)
      invariant heap_len == if itm == -1 then |Flat(ig)| else |Flat(ig[..itm])|
      decreases if itm == -1 then 0 else |ig| - itm
    {
      ItemInFlat(ig, itm);
      hide Flat;
      heap_len := heap_len + |ig[itm].data|;
      nitems := nitems + 1;
      assert ig[..|ig|] == ig;
      itm := NextItem(ig, itm);
    }
  }

  class Packetizer {
    const bank: ObjectBank
    const ht: HashTable
    const ig: seq<Item>
    const size: nat
    const hid: nat
    /** The objects in the bank at the start, top first. */
    ghost const all: seq<Packet>

    var state: State
    var o: Packet?
    var itm: int
    var payload_off: nat
    var heap_len: nat
    var nitems: nat
    var count: nat
    var ioff: nat
    var off: nat
    var remain: nat
    var didcopy: nat
    /** The number of packets hashed. */
    ghost var k: nat

    /** Position in the heap's data. */
    ghost function Pos(): nat
      reads this`payload_off, this`didcopy
    {
      payload_off + didcopy
    }

    ghost predicate Fixed() {
      size > 0 && InDomain(ig, hid) && Distinct(all)
    }

    /** The item being copied is itm, and remain bytes of it are left. */
    ghost predicate Cursor()
      reads this`payload_off, this`didcopy, this`itm, this`remain, this`ioff, this`k
    {
      && (itm == -1 || 0 <= itm < |ig|)
      && (itm == -1 ==> Pos() == 0 && remain == 0 && k == 0)
      && (itm >= 0 ==> && remain <= |ig[itm].data| && ioff == |ig[itm].data| - remain
                       && Pos() + remain == |Flat(ig[..itm + 1])|)
    }

    ghost predicate InHand()
      reads this`k, this`o, bank
    {
      k < |all| && o == all[k] && bank.top == all[k + 1..]
    }

    /** The header of the packet in hand, and its place in the buffer. */
    ghost predicate Headed()
      reads this`o, this`k, this`heap_len, this`payload_off, all
      requires o in all
    {
      var ps := FragmentPointers(ig, k);
      && FrontLaid(o.data, 4 + |ps|, hid, heap_len, payload_off) && PointersLaid(o.data, ps, |ps|)
      && o.n_items == 4 + |ps| && o.payload == 8 + 8 * o.n_items && o.payload + size <= MAX_PACKET_LEN
      && 8 + 8 * (4 + |ig|) + size < MAX_PACKET_LEN
    }

    /** The payload copied so far. */
    ghost predicate Copied()
      reads this`o, this`payload_off, this`didcopy, all
      requires o in all
    {
      && |o.data| == MAX_PACKET_LEN && o.payload + didcopy <= MAX_PACKET_LEN && Pos() <= |Flat(ig)|
      && o.data[o.payload..o.payload + didcopy] == Flat(ig)[payload_off..Pos()]
    }

    ghost predicate Getting()
      requires k <= |all|
      reads this, bank
    {
      && bank.top == all[k..] && didcopy == 0 && off == 0
      && nitems == (if k == 0 then 4 + |ig| else 4)
      && (k == 0 ==> count == 0 && itm == -1)
      && (k > 0 ==> count == heap_len - Pos() > 0 && itm >= 0)
    }

    ghost predicate Adding()
      reads this, bank, all
    {
      && InHand() && k == 0 && |ig| > 0 && nitems == 4 + |ig| && count == 0 && didcopy == 0 && off == 0 && itm == -1
      && FrontLaid(o.data, nitems, hid, heap_len, payload_off)
    }

    ghost predicate Initialising()
      reads this, bank, all
    {
      && InHand() && nitems == 4 && Pos() <= heap_len && count == heap_len - Pos() && didcopy == 0 && off == 0
      && (k > 0 ==> count > 0 && itm >= 0) && (k == 0 ==> itm == -1)
      && FrontLaid(o.data, 4 + |FragmentPointers(ig, k)|, hid, heap_len, payload_off)
      && PointersLaid(o.data, FragmentPointers(ig, k), |FragmentPointers(ig, k)|)
    }

    ghost predicate Copying()
      reads this, bank, all
    {
      && InHand() && nitems == 4 && Pos() <= heap_len && count == heap_len - Pos() && off == didcopy < size
      && (remain > 0 ==> off == 0) && (count > 0 || itm == -1)
      && Headed() && Copied()
    }

    ghost predicate Hashing()
      reads this, bank, all
    {
      && InHand() && nitems == 4 && Pos() <= heap_len && count == heap_len - Pos() && itm >= 0
      && (count > 0 ==> off == 0 && didcopy == size) && didcopy <= size
      && Headed() && Copied()
      && Word(o.data, 4) == ItemBuild(Pointer(IMMEDIATE, PAYLOAD_LEN_ID, didcopy))
    }

    ghost predicate Ended()
      requires size > 0 && k <= |all|
      reads this`k, bank
    {
      if !Sendable(|ig|, size, ht.os.Length) then k == 0 && bank.top == all[Min(1, |all|)..]
      else k == Min(NumPieces(|Flat(ig)|, size), |all|) && bank.top == all[k..]
    }

    /** What holds in every state. */
    ghost predicate Base()
      reads this`k, this`heap_len, all`data
    {
      Fixed() && heap_len == |Flat(ig)| && Buffers(all) && k <= |all| && k <= NumPieces(heap_len, size)
    }

    /** The table holds what was hashed so far. */
    ghost predicate Held()
      requires size > 0 && k <= |all|
      reads this`k, ht, ht.os, all[..k]
    {
      Stored(ht, all[..k], ig, size, hid)
    }

    /** What holds until the end. */
    ghost predicate Busy()
      requires size > 0
      reads this`payload_off, this`didcopy, this`itm, this`remain, this`ioff, this`k, this`heap_len
    {
      payload_off == Offset(size, k) && k < NumPieces(heap_len, size) && Cursor()
    }

    ghost predicate Valid()
      reads this, bank, ht, ht.os, all
    {
      bank.Valid() && Base() && Held() &&
      match state
      case GetPacket => Busy() && Getting()
      case AddItems => Busy() && Adding()
      case InitPacket => Busy() && Initialising()
      case CopyData => Busy() && Copying()
      case HashPacket => Busy() && Hashing()
      case End => Ended()
    }

    constructor (bank: ObjectBank, ht: HashTable, ig: seq<Item>, size: nat, hid: nat)
      requires size > 0 && InDomain(ig, hid) && bank.Valid() && Distinct(bank.top)
      requires Buffers(bank.top)
      requires forall j :: 0 <= j < ht.os.Length ==> ht.os[j] == []
      ensures fresh(this) && Valid() == true && state == GetPacket && k == 0
      ensures this.bank == bank && this.ht == ht && this.ig == ig && this.size == size && this.hid == hid
      ensures all == bank.top
    {
      this.bank, this.ht, this.ig, this.size, this.hid, this.all := bank, ht, ig, size, hid, bank.top;
      state, o, itm, payload_off, count, ioff, off, remain, didcopy := GetPacket, null, -1, 0, 0, 0, 0, 0, 0;
      k := 0;
      nitems, heap_len := 4, 0;
      new;
      heap_len, nitems := MeasureItems(ig);
      ConcatEmpty(ht.os[..]);
      PieceExists(|Flat(ig)|, size, 0);
      hide Distinct, NumPieces, Flat, Concat, InDomain;
    }

    lemma GetFacts()
      requires Base() == true && Held() == true && Busy() == true && Getting()
      ensures k > 0 ==> Sendable(|ig|, size, ht.os.Length)
      ensures k == 0 ==> Pos() == 0
      ensures |ig| == 0 ==> heap_len == 0
      ensures k < |all| ==> all[k] !in all[..k]
      ensures size > 0 && k <= |all| && k < NumPieces(heap_len, size) && heap_len == |Flat(ig)|
    {
      NotHashed(all, k);
    }

    /** A fresh object is in hand. */
    ghost predicate Starting()
      reads this, bank
    {
      && InHand() && all[k] !in all[..k] && didcopy == 0 && off == 0 && nitems == (if k == 0 then 4 + |ig| else 4)
      && (k == 0 ==> count == 0 && itm == -1 && Pos() == 0) && (|ig| == 0 ==> heap_len == 0)
      && (k > 0 ==> count == heap_len - Pos() > 0 && itm >= 0)
    }

    lemma StartFacts()
      requires Base() == true && Starting() == true
      ensures InHand() && all[k] !in all[..k] && didcopy == 0 && off == 0 && |o.data| == MAX_PACKET_LEN
      ensures nitems == 4 + |FragmentPointers(ig, k)| && (nitems > 4 && count == 0 <==> k == 0 && |ig| > 0)
      ensures k == 0 ==> count == 0 && itm == -1 && Pos() == 0 && nitems == 4 + |ig|
      ensures |ig| == 0 ==> heap_len == 0
      ensures k > 0 ==> count == heap_len - Pos() > 0 && itm >= 0
      ensures !(k == 0 && |ig| > 0) ==> nitems == 4 && FragmentPointers(ig, k) == []
      ensures Buffers(all) == true && Fixed() == true && heap_len == |Flat(ig)| && k <= |all| && size > 0
      ensures k <= NumPieces(heap_len, size)
    {}

    /** Writes the words every packet starts with. */
    method Start()
      requires bank.Valid() && Base() == true && Held() == true && Busy() == true && Starting() == true
      modifies this`state, o`data
      ensures bank.Valid() && Base() && Held() == true && Busy() == true
      ensures state == AddItems || state == InitPacket
      ensures if state == AddItems then Adding() else Initialising()
    {
      hide Distinct, NumPieces, Flat, Concat, InDomain, FrontLaid, Word, HeaderBuild, ItemBuild, Held, Busy,
        Starting;
      hide Stored, SetWord, Offset, ItemPointers, NextItem, Cursor, Pos, Fixed, Sendable, FragmentPointers;
      StartFacts();
      WriteFront(o, nitems, hid, heap_len, payload_off);
      state := if nitems > 4 && count == 0 then AddItems else InitPacket;
    }

    /** Takes an object from the bank and starts a packet in it. */
    method Get()
      requires bank.Valid() && Base() == true && Held() == true && Busy() == true && Getting() && state == GetPacket
      modifies this`state, this`o, bank, all
      ensures bank.Valid() && Base() == true && Held() == true && payload_off == old(payload_off) && itm == old(itm)
      ensures state == End || state == AddItems || state == InitPacket
      ensures if state == End then Ended() else Busy() == true
      ensures (state == AddItems ==> Adding() == true) && (state == InitPacket ==> Initialising() == true)
    {
      hide Distinct, NumPieces, Flat, Concat, InDomain, Base, Held, Busy, Adding, Initialising, Pos, Fixed;
      GetFacts();
      o := bank.Pop();
      if o == null {
        state := End;
      } else {
        assert o == all[k] && bank.top == all[k + 1..];
        Start();
      }
    }

    lemma AddFacts()
      requires Base() == true && Busy() == true && Adding() == true
      ensures all[k] !in all[..k] && InHand() && k == 0 && |ig| > 0 && didcopy == 0 && off == 0
        && heap_len == |Flat(ig)|
      ensures 8 * (5 + |ig|) <= MAX_PACKET_LEN && |o.data| == MAX_PACKET_LEN && nitems == 4 + |FragmentPointers(ig, k)|
      ensures FragmentPointers(ig, k) == ItemPointers(ig) && Pos() == 0 && itm == -1
      ensures FrontLaid(o.data, nitems, hid, heap_len, payload_off)
    {
      NotHashed(all, k);
    }

    /** The first packet carries the item pointers. */
    method Add()
      requires bank.Valid() && Base() == true && Held() == true && Busy() == true && Adding() == true
        && state == AddItems
      modifies this`state, this`nitems, this`itm, this`count, o`data
      ensures bank.Valid() && Base() && Held() == true && Busy() && state == InitPacket && Initialising()
      ensures payload_off == old(payload_off) && itm == old(itm)
    {
      hide Distinct, NumPieces, Flat, Concat, InDomain, FrontLaid, PointersLaid, Word, HeaderBuild, ItemBuild, Stored,
        SetWord, Offset, ItemPointers, NextItem, Fixed, Sendable, FragmentPointers, Held;
      AddFacts();
      itm := -1;
      count := WritePointers(o, ig, nitems, hid, heap_len, payload_off);
      nitems := 4;
      state := InitPacket;
    }

    lemma InitFacts()
      requires Base() == true && Held() == true && Busy() == true && Initialising() == true
      ensures InHand() && nitems == 4 && Pos() <= heap_len && count == heap_len - Pos() && didcopy == 0 && off == 0
      ensures (k > 0 ==> count > 0 && itm >= 0) && (k == 0 ==> itm == -1)
      ensures var ps := FragmentPointers(ig, k);
              && FrontLaid(o.data, 4 + |ps|, hid, heap_len, payload_off) && PointersLaid(o.data, ps, |ps|)
              && HeaderOk(Word(o.data, 0)) && HeaderItems(Word(o.data, 0)) == 4 + |ps| <= 4 + |ig|
              && (k == 0 ==> |ps| == |ig|)
      ensures size > 0 && k < |all| && heap_len == |Flat(ig)| && 8 * (5 + |ig|) <= MAX_PACKET_LEN
        && |o.data| == MAX_PACKET_LEN
      ensures k > 0 ==> Sendable(|ig|, size, ht.os.Length)
      ensures all[k] !in all[..k]
    {
      NotHashed(all, k);
      HeaderRoundTrip(4 + |FragmentPointers(ig, k)|);
      hide HeaderBuild, HeaderOk, HeaderItems, Word;
    }

    /** Reads the header back and checks that a full payload fits. */
    method Init()
      requires bank.Valid() && Base() == true && Held() == true && Busy() == true && Initialising() == true
        && state == InitPacket
      modifies this`state, o
      ensures bank.Valid() && Base() == true && Held() == true
      ensures state == End || state == CopyData
      ensures if state == End then Ended() else Busy() == true && Copying()
    {
      hide Distinct, NumPieces, Flat, Concat, InDomain, FrontLaid, PointersLaid, Word, HeaderBuild, ItemBuild;
      hide Stored, SetWord, Offset, ItemPointers, NextItem, Fixed, HeaderOk, HeaderItems, Cursor, LastAddr, Pointers;
      hide Base, Held, Busy, Reserved, Initialising, FragmentPointers;
      InitFacts();
      var ok := Unpack(o);
      state := if !ok || 8 + o.n_items * 8 + size >= MAX_PACKET_LEN then End else CopyData;
    }

    /** An item is at hand for copying. */
    ghost predicate Ready()
      reads this, bank, all
    {
      && InHand() && nitems == 4 && Pos() <= heap_len && count == heap_len - Pos() && off == didcopy < size && itm >= 0
      && Headed() && Copied()
    }

    lemma ReadyFacts()
      requires Base() == true && Busy() == true && Ready() == true
      ensures InHand() && nitems == 4 && Pos() <= heap_len && count == heap_len - Pos() && off == didcopy < size
      ensures 0 <= itm < |ig| && Headed() == true && Copied() == true
      ensures remain <= |ig[itm].data| && ioff == |ig[itm].data| - remain && remain <= count
      ensures Pos() + remain == |Flat(ig[..itm + 1])| && heap_len == |Flat(ig)| && all[k] !in all[..k]
    {
      NotHashed(all, k);
      NextBytes(ig, itm, ioff, remain, 0);
      hide Flat, Distinct, InDomain;
    }

    lemma HandFacts()
      requires InHand() && Headed() == true && Copied() == true
      ensures var ps := FragmentPointers(ig, k);
              && FrontLaid(o.data, 4 + |ps|, hid, heap_len, payload_off) && PointersLaid(o.data, ps, |ps|)
              && o.n_items == 4 + |ps| && o.payload == 8 + 8 * o.n_items && o.payload + size <= MAX_PACKET_LEN
              && 8 + 8 * (4 + |ig|) + size < MAX_PACKET_LEN
      ensures && |o.data| == MAX_PACKET_LEN && o.payload + didcopy <= MAX_PACKET_LEN && Pos() <= |Flat(ig)|
              && o.data[o.payload..o.payload + didcopy] == Flat(ig)[payload_off..Pos()]
    {}

    lemma CopyFacts(len: nat)
      requires Base() == true && Busy() == true && Ready() == true && len <= remain && didcopy + len <= size
      ensures o in all && itm >= 0 && |o.data| == MAX_PACKET_LEN && 0 <= itm < |ig| && ioff + len <= |ig[itm].data|
      ensures o.payload + off + len <= |o.data| && off == didcopy && payload_off + didcopy + len <= |Flat(ig)|
      ensures var ps, d := FragmentPointers(ig, k), Splice(o.data, o.payload + off, ig[itm].data[ioff..ioff + len]);
              && FrontLaid(d, 4 + |ps|, hid, heap_len, payload_off) && PointersLaid(d, ps, |ps|)
              && d[o.payload..o.payload + (didcopy + len)] == Flat(ig)[payload_off..payload_off + (didcopy + len)]
    {
      hide Distinct, NumPieces, Flat, Concat, InDomain, FrontLaid, PointersLaid, Splice, Offset, ItemPointers,
        Word;
      hide Base, Busy, Ready, Headed, Copied, FragmentPointers;
      ReadyFacts();
      HandFacts();
      BytesCopied(o.data, o.payload, didcopy, ig, itm, ioff, remain, len, FragmentPointers(ig, k), hid, heap_len,
                  payload_off);
    }

    /** Copies len bytes of the current item into the payload. */
    method CopyBytes(len: nat)
      requires bank.Valid() && Base() == true && Held() == true && Busy() == true && Ready() == true
      requires len <= remain && didcopy + len <= size
      modifies this`ioff, this`didcopy, this`count, o`data
      ensures bank.Valid() && Base() && Held() == true && Headed() && Copied()
      ensures ioff == old(ioff) + len && didcopy == old(didcopy) + len && count == old(count) - len
    {
      hide Distinct, NumPieces, Flat, Concat, InDomain, FrontLaid, PointersLaid, Word, HeaderBuild, ItemBuild;
      hide Offset, ItemPointers, NextItem, Fixed, Cursor, FragmentPointers, Stored, Busy, Ready, Held;
      ReadyFacts();
      HandFacts();
      CopyFacts(len);
      o.data := Splice(o.data, o.payload + off, ig[itm].data[ioff..ioff + len]);
      ioff := ioff + len;
      didcopy := didcopy + len;
      count := count - len;
    }

    lemma CopyingFacts()
      requires Base() == true && Busy() == true && Copying() == true
      ensures InHand() && nitems == 4 && Pos() <= heap_len && count == heap_len - Pos() && off == didcopy < size
      ensures (remain > 0 ==> off == 0) && (count > 0 || itm == -1) && -1 <= itm < |ig| && Headed() == true
        && Copied() == true
      ensures payload_off == Offset(size, k) && k < NumPieces(heap_len, size)
      ensures remain > 0 ==> itm >= 0 && remain <= |ig[itm].data| && ioff == |ig[itm].data| - remain
                             && Pos() + remain == |Flat(ig[..itm + 1])|
      ensures remain == 0 && NextItem(ig, itm) == -1 ==> |ig| == 0 && k == 0
      ensures var i := NextItem(ig, itm);
              remain == 0 && i != -1 ==> i == itm + 1 < |ig| && Pos() + |ig[i].data| == |Flat(ig[..i + 1])|
    {
      hide Headed, Copied, Distinct;
      assert ig[..|ig|] == ig && ig[..0] == [];
      if NextItem(ig, itm) != -1 { ItemInFlat(ig, itm + 1); }
      hide Flat;
    }

    /** Moves to the next item when the current one is used up. */
    method Fetch()
      requires bank.Valid() && Base() == true && Held() == true && Busy() == true && Copying() == true
        && state == CopyData
      modifies this`state, this`itm, this`remain, this`ioff, this`off
      ensures bank.Valid() && Base() == true && Held() == true
      ensures state == End || state == CopyData
      ensures if state == End then Ended() else Busy() && Ready()
      ensures state != End ==> if old(remain) == 0 then old(itm) < itm else itm == old(itm) && remain == old(remain)
    {
      hide Distinct, NumPieces, Flat, Concat, InDomain, FrontLaid, PointersLaid, Word, HeaderBuild, ItemBuild;
      hide Offset, ItemPointers, NextItem, FragmentPointers, Stored, Headed, Copied, Base, Held, Copying;
      CopyingFacts();
      if remain == 0 {
        itm := NextItem(ig, itm);
        if itm == -1 {
          state := End;
          return;
        }
        remain := |ig[itm].data|;
        ioff := 0;
      } else {
        off := 0;
      }
    }

    /** Writes the payload length. */
    method SetLength(len: nat)
      requires bank.Valid() && Base() == true && Held() == true && InHand() && all[k] !in all[..k]
      requires Headed() == true && Copied() == true
      modifies o`data
      ensures bank.Valid() && Base() && Held() == true && Headed() && Copied()
      ensures Word(o.data, 4) == ItemBuild(Pointer(IMMEDIATE, PAYLOAD_LEN_ID, len))
    {
      hide Distinct, NumPieces, Flat, Concat, InDomain, FrontLaid, PointersLaid, Word, HeaderBuild, ItemBuild;
      hide Offset, ItemPointers, NextItem, Fixed, FragmentPointers, Stored, SetWord, Held;
      HandFacts();
      var w := ItemBuild(Pointer(IMMEDIATE, PAYLOAD_LEN_ID, len));
      LengthWritten(o.data, w, FragmentPointers(ig, k), hid, heap_len, payload_off, o.payload, didcopy);
      o.SetItem(4, w);
    }

    /** The rest of the item fits: copies all of it. */
    method CopyRest()
      requires bank.Valid() && Base() == true && Held() == true && Busy() == true && Ready() == true
        && state == CopyData
      requires off + remain < size
      modifies this`state, this`ioff, this`didcopy, this`count, this`off, this`remain, o`data
      ensures bank.Valid() && Base() == true && Held() == true && Busy() && InHand() && Headed() == true
        && Copied() == true
      ensures state == (if count > 0 then CopyData else HashPacket) && remain == 0 && off == didcopy < size
      ensures Pos() <= heap_len && count == heap_len - Pos()
    {
      hide Distinct, NumPieces, Flat, Concat, InDomain, FrontLaid, PointersLaid, Word, HeaderBuild, ItemBuild;
      hide Offset, ItemPointers, NextItem, FragmentPointers, Stored, Base, Held, Headed, Copied, Ready;
      ReadyFacts();
      CopyBytes(remain);
      off := off + remain;
      remain := 0;
      SetLength(off);
      state := if count > 0 then CopyData else HashPacket;
    }

    /** The item fills the packet: copies what the packet takes. */
    method CopyPart()
      requires bank.Valid() && Base() == true && Held() == true && Busy() == true && Ready() == true
        && state == CopyData
      requires off + remain >= size
      modifies this`state, this`ioff, this`didcopy, this`count, this`off, this`remain, o`data
      ensures bank.Valid() && Base() == true && Held() == true && Busy() && InHand() && Headed() == true
        && Copied() == true
      ensures state == HashPacket && off == 0 && didcopy == size && Pos() <= heap_len && count == heap_len - Pos()
      ensures remain < old(remain)
    {
      hide Distinct, NumPieces, Flat, Concat, InDomain, FrontLaid, PointersLaid, Word, HeaderBuild, ItemBuild;
      hide Offset, ItemPointers, NextItem, FragmentPointers, Stored, Base, Held, Headed, Copied, Ready;
      ReadyFacts();
      var cancopy := if remain < size - off then remain else size - off;
      CopyBytes(cancopy);
      var left := if remain < size - off then 0 else remain - (size - off);
      remain := left;
      off := 0;
      state := HashPacket;
    }

    /** Fills the packet from the current item: all of the rest of the item, or as much as the packet takes. */
    method Fill()
      requires bank.Valid() && Base() == true && Held() == true && Busy() == true && Ready() == true
        && state == CopyData
      modifies this`state, this`ioff, this`didcopy, this`count, this`off, this`remain, o`data
      ensures bank.Valid() && Base() == true && Held() == true && Busy() == true
      ensures remain == 0 || remain < old(remain)
      ensures if state == CopyData then Copying() else state == HashPacket && Hashing()
    {
      hide Distinct, NumPieces, Flat, Concat, InDomain, FrontLaid, PointersLaid, Word, HeaderBuild, ItemBuild;
      hide Offset, ItemPointers, NextItem, FragmentPointers, Stored, Base, Held, Headed, Copied, Busy, Cursor, Ready;
      ReadyFacts();
      if off + remain < size {
        CopyRest();
      } else {
        CopyPart();
      }
      SetLength(didcopy);
    }

    lemma HashFacts()
      requires Base() == true && Held() == true && Busy() == true && Hashing() == true
      ensures InHand() && nitems == 4 && Pos() <= heap_len && count == heap_len - Pos() && all[k] !in all[..k]
      ensures (count > 0 ==> off == 0 && didcopy == size) && didcopy <= size && 0 <= itm < |ig| && remain <= count
      ensures size > 0 && heap_len == |Flat(ig)| && payload_off == Offset(size, k) && k < NumPieces(heap_len, size)
      ensures Headed() == true && Copied() == true
      ensures Word(o.data, 4) == ItemBuild(Pointer(IMMEDIATE, PAYLOAD_LEN_ID, didcopy))
    {
      hide Distinct, NumPieces, Flat, Concat, Word, ItemBuild, Held, Base, Headed, Copied, Offset;
      BaseFacts();
      NextBytes(ig, itm, ioff, remain, 0);
    }

    lemma HashHeader()
      requires Base() == true && Busy() == true && Hashing() == true && Held() == true
      ensures o in all && |o.data| == MAX_PACKET_LEN && HeaderOk(Word(o.data, 0))
      ensures 8 + 8 * (4 + |ig|) + size < MAX_PACKET_LEN
      ensures var ps := FragmentPointers(ig, k);
              && HeaderItems(Word(o.data, 0)) == 4 + |ps| <= 4 + |ig|
              && Pointers(o.data, 4 + |ps|) == Bookkeeping(hid, heap_len, payload_off, didcopy) + ps
              && o.payload == 8 + 8 * (4 + |ps|) && o.payload + didcopy <= MAX_PACKET_LEN
              && o.data[o.payload..o.payload + didcopy] == Flat(ig)[payload_off..Pos()]
    {
      hide Distinct, NumPieces, Flat, Concat, FrontLaid, PointersLaid, Word, HeaderOk, HeaderItems, ItemBuild;
      hide Pointers, Bookkeeping, Held, Base, Busy, Hashing, Headed, Copied, FragmentPointers, InDomain, Offset;
      HashFacts();
      BaseFacts();
      HandFacts();
      HeaderOfFragment(o.data, ig, k, hid, payload_off, didcopy);
    }

    lemma HeldFacts()
      requires Base() == true && Held() == true
      ensures k > 0 ==> Sendable(|ig|, size, ht.os.Length)
    {}

    lemma BaseFacts()
      requires Base() == true
      ensures size > 0 && heap_len == |Flat(ig)| < ADDR_LIMIT && hid < ADDR_LIMIT && InDomain(ig, hid) == true
        && k <= |all|
      ensures Fixed() == true && Buffers(all) == true
      ensures 8 * (5 + |ig|) <= MAX_PACKET_LEN && (k < |all| ==> all[k] !in all[..k])
    {
      NotHashed(all, k);
    }

    /** Reads the finished packet back: it is the next fragment. */
    method ReadBack() returns (ok: bool)
      requires bank.Valid() && Base() == true && Held() == true && Busy() == true && Hashing() == true
      modifies o`n_items, o`payload, o`heap_cnt, o`heap_len, o`payload_off, o`payload_len
      ensures ok && o in all && o == all[k] && o.Unpacked() && o.Read() == Fragment(ig, size, hid, k)
      ensures Faithful(o, Fragment(ig, size, hid, k)) == true
    {
      hide Distinct, NumPieces, Flat, Concat, FrontLaid, PointersLaid, Word, HeaderOk, HeaderItems, ItemBuild;
      hide Pointers, Bookkeeping, Held, Base, Busy, Hashing, Headed, Copied, FragmentPointers, InDomain, Offset;
      hide Describes, Faithful, Fragment;
      HashFacts();
      HashHeader();
      BaseFacts();
      IsFragment(o.data, ig, size, hid, k, didcopy);
      ok := UnpackMessage(o, Fragment(ig, size, hid, k));
    }

    /** Adds the packet in hand to the table. */
    method Insert() returns (ok: bool)
      requires bank.Valid() && Base() == true && Held() == true && InHand() && |ig| > 0
      requires all[k] !in all[..k] && 8 + 8 * (4 + |ig|) + size < MAX_PACKET_LEN && k < NumPieces(|Flat(ig)|, size)
      requires o.Unpacked() && o.Read() == Fragment(ig, size, hid, k) && Faithful(o, Fragment(ig, size, hid, k)) == true
      modifies ht.os, this`k
      ensures bank.Valid() && Base() && Held() == true
      ensures ok == (ht.os.Length > 0) && k == old(k) + if ok then 1 else 0
    {
      hide Distinct, NumPieces, Flat, Concat, Fixed, Buffers, Describes, Faithful, Stored, Packet.Unpacked,
        Packet.Read, Fragment;
      BaseFacts();
      ok := InsertFragment(ht, all[..k], o, ig, size, hid);
      if !ok { return; }
      assert all[..k + 1] == all[..k] + [o];
      k := k + 1;
    }

    /** Reads the finished packet back and hashes it into the table. */
    method Store() returns (ok: bool)
      requires bank.Valid() && Base() == true && Held() == true && Busy() == true && Hashing() == true
      modifies this`k, o, ht.os
      ensures bank.Valid() && Base() == true && Held() == true
      ensures ok == (ht.os.Length > 0) && k == old(k) + if ok then 1 else 0
    {
      hide Distinct, NumPieces, Flat, Concat, Offset, Base, Held, Busy, Headed, Copied, Hashing, Fragment,
        Received, Describes, Faithful;
      HashFacts();
      HashHeader();
      ok := ReadBack();
      if ok { ok := Insert(); }
    }

    /** Hashes the finished packet and goes on with the next one, if bytes are left. */
    method Hash()
      requires bank.Valid() && Base() == true && Held() == true && Busy() == true && Hashing() == true
        && state == HashPacket
      modifies this`state, this`payload_off, this`didcopy, this`k, o, ht.os
      ensures bank.Valid() && Base() == true && Held() == true
      ensures state == End || state == GetPacket
      ensures if state == End then Ended() else Busy() && Getting() && payload_off == old(payload_off) + size
    {
      hide Distinct, NumPieces, Flat, Concat, Offset, Base, Held, Headed, Copied, Hashing, Received, Fragment, Word,
        HeaderOk, HeaderItems, Pointers, Bookkeeping, FragmentPointers, ItemBuild, InDomain, Buffers;
      HashFacts();
      HashHeader();
      HeldFacts();
      HashCursor();
      PieceReached(heap_len, size, k, didcopy);
      BaseFacts();
      var ok := Store();
      if !ok || (count == 0 && remain == 0) {
        state := End;
        return;
      }
      payload_off := payload_off + size;
      didcopy := 0;
      state := GetPacket;
    }

    /** One turn of the state machine. */
    method Step()
      requires Valid() == true && state != End
      modifies this, bank, ht.os, all
      ensures Valid() == true
      ensures state != End ==>
                if payload_off != old(payload_off) then payload_off > old(payload_off)
                else if itm != old(itm) then itm > old(itm)
                else if remain != old(remain) then remain < old(remain)
                else Rank(state) < old(Rank(state))
    {
      hide Base, Held, Busy, Getting, Adding, Initialising, Copying, Hashing, Ready, Ended, InHand;
      hide NumPieces, Flat;
      Unfold();
      match state {
        case GetPacket => Get();
        case AddItems => Add();
        case InitPacket => Init();
        case CopyData =>
          Fetch();
          if state != End { Fill(); }
        case HashPacket => Hash();
      }
    }

    lemma Unfold()
      requires Valid() == true && state != End
      ensures bank.Valid() && Base() == true && Held() == true && Busy() == true
      ensures size > 0 && k <= |all| && (state == GetPacket ==> Getting())
      ensures (state == AddItems ==> Adding() == true) && (state == InitPacket ==> Initialising() == true)
      ensures (state == CopyData ==> Copying() == true) && (state == HashPacket ==> Hashing() == true)
      ensures state != GetPacket ==> o in all
    {
      hide Base, Held, Busy, Headed, Copied, FrontLaid, PointersLaid;
      BaseFacts();
    }

    lemma Bounds()
      requires Valid() == true && state != End
      ensures payload_off <= |Flat(ig)| && itm <= |ig|
    {
      hide Stored, Headed, Copied, FrontLaid, PointersLaid, InDomain, Distinct;
      PieceBounds(|Flat(ig)|, size, k);
    }

    lemma Finish()
      requires Valid() == true && state == End
      ensures var sent := ht.Contents();
              var sendable := Sendable(|ig|, size, ht.os.Length);
              && bank.Valid() && size > 0
              && |sent| == (if sendable then Min(NumPieces(|Flat(ig)|, size), |all|) else 0)
              && sent == all[..|sent|] && Received(sent, ig, size, hid) == true
              && bank.top == all[if sendable then |sent| else Min(1, |all|)..]
    {
      hide Received, EmptyAfter, InDomain, Distinct, NumPieces, Flat, Concat;
    }

    lemma HashCursor()
      requires Base() == true && Busy() == true && Hashing() == true
      ensures Cursor()
    {}
  }

  /**
  Cuts an item group into packets and hashes them. Nothing is sent for an empty group or when a full payload does not
  fit behind the first packet's pointers; otherwise packets are sent as long as the bank has objects.
   */
  method PacketizeItemGroup(bank: ObjectBank, ht: HashTable, ig: seq<Item>, pkt_size: int, hid: nat)
    returns (table: HashTable?)
    requires InDomain(ig, hid) && bank.Valid() && Distinct(bank.top) && Buffers(bank.top)
    requires forall j :: 0 <= j < ht.os.Length ==> ht.os[j] == []
    modifies bank, bank.top, ht.os
    ensures pkt_size <= 0 ==> table == null && ht.Contents() == [] && bank.top == old(bank.top)
    ensures pkt_size > 0 ==>
              var all, sent := old(bank.top), ht.Contents();
              var sendable := Sendable(|ig|, pkt_size, ht.os.Length);
              && table == ht && bank.Valid()
              && |sent| == (if sendable then Min(NumPieces(|Flat(ig)|, pkt_size), |all|) else 0)
              && sent == all[..|sent|] && Received(sent, ig, pkt_size, hid)
              && bank.top == all[if sendable then |sent| else Min(1, |all|)..]
  {
    if pkt_size <= 0 {
      ConcatEmpty(ht.os[..]);
      return null;
    }
    hide *;
    var z := new Packetizer(bank, ht, ig, pkt_size, hid);
    while z.state != End
      invariant z.Valid() == true
      decreases z.state != End, |Flat(ig)| - z.payload_off, |ig| - z.itm, z.remain, Rank(z.state)
    {
      z.Bounds();
      z.Step();
      if z.state != End { z.Bounds(); }
    }
    z.Finish();
    table := ht;
  }
}
