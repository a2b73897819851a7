/**
The heap transfer end to end: the datagrams of a heap, received in any order, give back exactly its non-empty items.

In contracts `P(..) == true` means P(..): compared with `true`, a predicate is passed on as a whole instead of being
taken apart at every call.
 */
module HeapRoundTrip {
  import opened Bits
  import opened Sequences
  import opened SpeadLayout
  import opened HeapStore
  import opened TableOrder
  import opened Fragments
  import opened Reassembly
  import opened Receiver
  import opened Packetizer

  // ---- what the fragments mean

  /** The items that carry bytes, as they come out at the receiver. */
  function NonEmptyItems(items: seq<Item>): seq<ApiItem> {
    if items == [] then []
    else
      var last := items[|items| - 1];
      NonEmptyItems(items[..|items| - 1]) + if last.data == [] then [] else [ApiItem(last.id, DIRECT, last.data)]
  }

  /** Whether a descriptor item carries bytes. */
  predicate CarriesDescriptor(items: seq<Item>) {
    exists i :: 0 <= i < |items| && items[i].id == DESCRIPTOR_ID && items[i].data != []
  }

  lemma FlatMonotone(items: seq<Item>, i: nat, j: nat)
    requires i <= j <= |items|
    ensures |Flat(items[..i])| <= |Flat(items[..j])| <= |Flat(items)|
  {
    FlatPrefix(items[..j], i);
    assert items[..j][..i] == items[..i];
    FlatPrefix(items, j);
  }

  lemma PointersOrderly(items: seq<Item>)
    ensures Orderly(ItemPointers(items), |Flat(items)|)
  {
    var ps := ItemPointers(items);
    forall i, j | 0 <= i <= j < |ps|
      ensures ps[i].addr <= ps[j].addr <= |Flat(items)| && ps[i].mode == DIRECT
    {
      PointerAt(items, i);
      PointerAt(items, j);
      FlatMonotone(items, i, j);
    }
    if items != [] {
      PointerAt(items, 0);
      assert items[..0] == [];
    }
  }

  /** Between the offsets of an item and of the next one are the item's bytes. */
  lemma ExtractItem(items: seq<Item>, k: nat)
    requires k < |items|
    ensures Extract(ItemPointers(items), k, Flat(items)) == items[k].data
  {
    var ps, h := ItemPointers(items), |Flat(items)|;
    PointerAt(items, k);
    ItemInFlat(items, k);
    if k + 1 < |items| {
      PointerAt(items, k + 1);
    } else {
      assert items[..k + 1] == items;
    }
    hide Flat, ItemPointers;
    assert NextDirect(ps, k + 1, h) == |Flat(items[..k + 1])|;
  }

  /** Reading the pointers over the concatenated payloads gives the items back. */
  lemma {:induction false} OutputsAreItems(items: seq<Item>, k: nat)
    requires k <= |items|
    ensures Outputs(ItemPointers(items), k, Flat(items)) == NonEmptyItems(items[..k])
    ensures HasDescriptor(ItemPointers(items), k, Flat(items)) <==> CarriesDescriptor(items[..k])
  {
    hide Flat, ItemPointers, Extract, CarriesDescriptor;
    if k > 0 {
      OutputsAreItems(items, k - 1);
      ExtractItem(items, k - 1);
      PointerAt(items, k - 1);
      var front, init := items[..k], items[..k - 1];
      assert front == init + [items[k - 1]] && front[..k - 1] == init;
      DescriptorSplit(init, items[k - 1]);
    } else {
      assert items[..0] == [];
      NoDescriptor();
    }
  }

  lemma NoDescriptor()
    ensures !CarriesDescriptor([])
  {}

  lemma DescriptorSplit(items: seq<Item>, last: Item)
    ensures CarriesDescriptor(items + [last])
        <==> CarriesDescriptor(items) || (last.id == DESCRIPTOR_ID && last.data != [])
  {
    var all := items + [last];
    assert all[|items|] == last;
    if CarriesDescriptor(items) {
      var i :| 0 <= i < |items| && items[i].id == DESCRIPTOR_ID && items[i].data != [];
      assert all[i] == items[i];
    }
  }

  lemma {:induction false} BytesAreConcat(ms: seq<Message>)
    ensures BytesOf(ms) == Concat(Payloads(ms))
  {
    if ms != [] {
      var n := |ms| - 1;
      BytesAreConcat(ms[..n]);
      assert Payloads(ms)[..n] == Payloads(ms[..n]);
    }
  }

  /** Only the first fragment carries pointers. */
  lemma {:induction false} FragmentsPointers(items: seq<Item>, size: nat, hid: nat, k: nat)
    requires size > 0 && 0 < k <= NumPieces(|Flat(items)|, size)
    ensures PointersOf(HeapFragments(items, size, hid)[..k]) == ItemPointers(items)
  {
    var ms := HeapFragments(items, size, hid);
    assert ms[k - 1].items == if k == 1 then ItemPointers(items) else [];
    hide *;
    PointersMore(ms, k - 1);
    if k == 1 {
      NoMessages(ms);
    } else {
      FragmentsPointers(items, size, hid, k - 1);
    }
  }

  /** All fragments together are a complete heap that amounts to the non-empty items. */
  lemma FragmentsComplete(ss: seq<seq<Packet>>, items: seq<Item>, size: nat, hid: nat)
    requires size > 0 && items != [] && Single(ss)
    ensures Complete(ss, HeapFragments(items, size, hid), |Flat(items)|) == true
    ensures Outcome(HeapFragments(items, size, hid)) == Finished(NonEmptyItems(items), CarriesDescriptor(items))
  {
    hide Flat, ItemPointers, Orderly, NumPieces, PointersOf, BytesOf, Outputs, HasDescriptor, NonEmptyItems,
      HeapFragments;
    var ms := HeapFragments(items, size, hid);
    BytesAreConcat(ms);
    PiecesTile(items, size, hid);
    FragmentsPointers(items, size, hid, |ms|);
    assert ms[..|ms|] == ms && items[..|items|] == items;
    PointersOrderly(items);
    OutputsAreItems(items, |items|);
  }

  // ---- a table that holds some of the fragments

  /** The indices of the packets that are there. */
  function Keys(got: seq<Packet?>): seq<nat> {
    if got == [] then []
    else Keys(got[..|got| - 1]) + if got[|got| - 1] == null then [] else [|got| - 1]
  }

  lemma {:induction false} KeysFacts(got: seq<Packet?>)
    ensures forall i :: 0 <= i < |Keys(got)| ==> Keys(got)[i] < |got| && got[Keys(got)[i]] != null
    ensures forall i, j :: 0 <= i < j < |Keys(got)| ==> Keys(got)[i] < Keys(got)[j]
    ensures forall k :: 0 <= k < |got| && got[k] != null ==> k in Keys(got)
  {
    if got != [] {
      var n := |got| - 1;
      KeysFacts(got[..n]);
      assert forall k :: k in Keys(got) <==> k in Keys(got[..n]) || (got[n] != null && k == n);
    }
  }

  /** The entries of xs whose packet is there. */
  function Present<T>(got: seq<Packet?>, xs: seq<T>): (r: seq<T>)
    requires |xs| == |got|
    ensures |r| == |Keys(got)|
  {
    KeysFacts(got);
    seq(|Keys(got)|, i requires 0 <= i < |Keys(got)| => xs[Keys(got)[i]])
  }

  /** The packets that are there. */
  function Packets(got: seq<Packet?>): (r: seq<Packet>)
    ensures |r| == |Keys(got)|
  {
    KeysFacts(got);
    seq(|Keys(got)|, i requires 0 <= i < |Keys(got)| => got[Keys(got)[i]])
  }

  /** Bucket at[k] holds packet k and nothing else, if packet k is there; the other buckets are empty. */
  ghost predicate Filled(ss: seq<seq<Packet>>, got: seq<Packet?>, at: seq<int>) {
    && |at| == |got|
    && (forall k :: 0 <= k < |at| ==> 0 <= at[k] < |ss|)
    && (forall k, l :: 0 <= k < l < |at| ==> at[k] < at[l])
    && (forall k :: 0 <= k < |at| ==> ss[at[k]] == if got[k] == null then [] else [got[k]])
    && (forall i :: 0 <= i < |ss| && i !in at ==> ss[i] == [])
  }

  lemma IsPresent<T>(got: seq<Packet?>, xs: seq<T>, k: nat)
    requires |xs| == |got| && k < |got|
    ensures got[k] != null ==> xs[k] in Present(got, xs)
  {
    KeysFacts(got);
    if got[k] != null {
      var j :| 0 <= j < |Keys(got)| && Keys(got)[j] == k;
      assert Present(got, xs)[j] == xs[k];
    }
  }

  /** An in-order traversal meets the packets that are there, in fragment order. */
  lemma FilledTraversal(ss: seq<seq<Packet>>, got: seq<Packet?>, at: seq<int>)
    requires Filled(ss, got, at)
    ensures Concat(ss) == Packets(got) && Single(ss)
  {
    hide Keys, Concat;
    var ks, xs, ys := Keys(got), Packets(got), Present(got, at);
    KeysFacts(got);
    forall i | 0 <= i < |ks| ensures 0 <= ys[i] < |ss| && ss[ys[i]] == [xs[i]] {
      assert ys[i] == at[ks[i]];
    }
    forall i | 0 <= i < |ss| && i !in ys ensures ss[i] == [] {
      if i in at {
        var k :| 0 <= k < |at| && at[k] == i;
        IsPresent(got, at, k);
      }
    }
    ConcatOnePerBucket(ss, xs, ys);
    forall i | 0 <= i < |ss| ensures |ss[i]| <= 1 {
      if i in at { var k :| 0 <= k < |at| && at[k] == i; }
    }
  }

  /** One more packet in its bucket. */
  lemma FilledStep(ss: seq<seq<Packet>>, got: seq<Packet?>, at: seq<int>, k: nat, p: Packet)
    requires Filled(ss, got, at) && k < |got| && got[k] == null
    ensures 0 <= at[k] < |ss| && Filled(Placed(ss, at[k], p), got[k := p], at)
  {
    assert at[k] in at;
  }

  /** The buckets of the fragments. */
  function Buckets(h: nat, size: nat, tLen: nat): (at: seq<int>)
    requires size > 0
    ensures |at| == NumPieces(h, size)
  {
    seq(NumPieces(h, size), k requires k >= 0 => HashIndex(Offset(size, k), h, tLen))
  }

  /** A large enough table has a bucket for every fragment. */
  lemma BucketsSpread(h: nat, size: nat, tLen: nat)
    requires size > 0 && tLen > 0 && size * (tLen - 1) >= h
    ensures var at := Buckets(h, size, tLen);
            && (forall k :: 0 <= k < |at| ==> 0 <= at[k] < tLen)
            && (forall k, l :: 0 <= k < l < |at| ==> at[k] < at[l])
  {
    var at := Buckets(h, size, tLen);
    forall k | 0 <= k < |at| ensures 0 <= at[k] < tLen { FragmentIndex(h, size, k, tLen); }
    forall k, l | 0 <= k < l < |at| ensures at[k] < at[l] {
      PieceExists(h, size, l);
      MulMonotone(size, k + 1, l);
      assert Offset(size, k) + size == size * (k + 1);
      IndexSeparates(Offset(size, k), Offset(size, l), size, h, tLen);
    }
  }

  /**
  The pattern sender's own sizing is large enough: for chunks of c bytes sent as two items of half that size, rounded
  up, c / pkt + 2 buckets meet the bound above, and one heap needs fewer packet objects than that.
   */
  lemma SenderSizing(c: nat, pkt: nat)
    requires pkt > 0
    ensures var h, packets := 2 * ((c + 1) / 2), c / pkt + 2;
      pkt * (packets - 1) >= h && NumPieces(h, pkt) < packets
  {
    var h, q := 2 * ((c + 1) / 2), c / pkt + 1;
    assert pkt * q == pkt * (c / pkt) + pkt > c;
    assert h <= c + 1 <= pkt * q;
    PieceExists(h, pkt, q);
  }

  // ---- counting the bytes

  /** The payload bytes of the packets that are there. */
  function Arrived(got: seq<Packet?>, ms: seq<Message>): nat
    requires |ms| == |got|
  {
    if got == [] then 0
    else
      var n := |got| - 1;
      Arrived(got[..n], ms[..n]) + if got[n] == null then 0 else |ms[n].payload|
  }

  lemma {:induction false} ArrivedStep(got: seq<Packet?>, ms: seq<Message>, k: nat, p: Packet)
    requires |ms| == |got| && k < |got| && got[k] == null
    ensures Arrived(got[k := p], ms) == Arrived(got, ms) + |ms[k].payload|
  {
    var n, g := |got| - 1, got[k := p];
    if k == n {
      assert g[..n] == got[..n];
    } else {
      ArrivedStep(got[..n], ms[..n], k, p);
      assert g[..n] == got[..n][k := p];
    }
  }

  /** All bytes are there exactly when all packets are, as no payload is empty. */
  lemma {:induction false} ArrivedAll(got: seq<Packet?>, ms: seq<Message>)
    requires |ms| == |got| && forall k :: 0 <= k < |ms| ==> ms[k].payload != []
    ensures Arrived(got, ms) <= |BytesOf(ms)|
    ensures Arrived(got, ms) == |BytesOf(ms)| <==> !Missing(got)
  {
    if got != [] {
      var n := |got| - 1;
      ArrivedAll(got[..n], ms[..n]);
      assert null in got <==> null in got[..n] || got[n] == null;
    }
  }

  lemma {:induction false} AllPresent(got: seq<Packet?>, ms: seq<Message>)
    requires |ms| == |got| && null !in got
    ensures Present(got, ms) == ms
    decreases got
  {
    AllKeys(got);
  }

  lemma {:induction false} AllKeys(got: seq<Packet?>)
    requires null !in got
    ensures |Keys(got)| == |got| && forall i :: 0 <= i < |got| ==> Keys(got)[i] == i
  {
    if got != [] {
      assert got[|got| - 1] in got;
      AllKeys(got[..|got| - 1]);
    }
  }

  /** The packets that are there read as their fragments. */
  ghost predicate Carried(got: seq<Packet?>, ms: seq<Message>)
    requires |ms| == |got|
    reads got
  {
    forall k :: 0 <= k < |got| && got[k] != null ==> got[k].Unpacked() && got[k].Read() == ms[k]
  }

  lemma CarriedHolds(got: seq<Packet?>, ms: seq<Message>)
    requires |ms| == |got| && Carried(got, ms)
    ensures Holds(Packets(got), Present(got, ms))
  {
    KeysFacts(got);
    hide Packet.Unpacked, Packet.Read, Keys;
  }

  // ---- the receiving loop

  /** A received datagram in a cleared packet buffer. */
  function Padded(d: seq<Byte>): (r: seq<Byte>)
    requires |d| <= MAX_PACKET_LEN
    ensures |r| == MAX_PACKET_LEN
  {
    d + seq(MAX_PACKET_LEN - |d|, _ => 0)
  }

  /** The datagram carries the message. */
  ghost predicate Carries(d: seq<Byte>, m: Message) {
    |d| <= MAX_PACKET_LEN && Describes(Padded(d), m)
  }

  /** Takes an object from the bank and reads a datagram into it; without a valid header the object goes back. */
  method TakeDatagram(bank: ObjectBank, d: seq<Byte>, ghost m: Message) returns (o: Packet?)
    requires bank.Valid() && |d| <= MAX_PACKET_LEN
    requires HeaderOk(Word(Padded(d), 0)) ==> Carries(d, m)
    modifies bank, bank.top[..Min(1, |bank.top|)]
    ensures bank.Valid()
    ensures if old(bank.top) != [] && |d| > 0 && HeaderOk(Word(Padded(d), 0)) then
              o == old(bank.top)[0] && bank.top == old(bank.top)[1..] && o.Unpacked() && o.Read() == m
            else
              o == null && bank.top == old(bank.top)
  {
    hide Describes, HeaderOk, Word, Packet.Unpacked, Packet.Read;
    o := bank.Pop();
    if o == null { return; }
    o.Clear();
    if |d| == 0 {
      bank.Push(o);
      return null;
    }
    o.data := Padded(d);
    var ok := UnpackMessage(o, m);
    if !ok {
      bank.Push(o);
      return null;
    }
  }

  /** A datagram with the bytes that a sent packet puts on the wire carries the packet's message. */
  lemma WireCarries(data: seq<Byte>, m: Message)
    requires |data| == MAX_PACKET_LEN && Describes(data, m)
    ensures 0 <= WireLength(data, m) <= |data| && Carries(data[..WireLength(data, m)], m)
  {
    var len := WireLength(data, m);
    hide HeaderOk, Word, Pointers, LastAddr, UserPointers;
    assert 0 <= len <= |data|;
    assert Padded(data[..len])[..len] == data[..len];
    WireSuffices(data, Padded(data[..len]), m);
  }

  /** Carried datagrams have a valid header and are not empty. */
  lemma CarriesHeader(d: seq<Byte>, m: Message)
    requires Carries(d, m)
    ensures HeaderOk(Word(Padded(d), 0)) && |d| > 0
  {
    if d == [] {
      assert Padded(d)[0..8] == [0, 0, 0, 0, 0, 0, 0, 0];
      ZeroWord();
    }
  }

  lemma ZeroWord()
    ensures FromBytes([0, 0, 0, 0, 0, 0, 0, 0]) == 0
  {
    var z: seq<Byte> := [0, 0, 0, 0, 0, 0, 0, 0];
    assert z[..7][..6] == z[..6] && z[..6][..5] == z[..5] && z[..5][..4] == z[..4] && z[..4][..3] == z[..3];
    assert z[..3][..2] == z[..2] && z[..2][..1] == z[..1] && z[..1][..0] == [];
    assert FromBytes(z[..1]) == 0 && FromBytes(z[..2]) == 0 && FromBytes(z[..3]) == 0 && FromBytes(z[..4]) == 0;
    assert FromBytes(z[..5]) == 0 && FromBytes(z[..6]) == 0 && FromBytes(z[..7]) == 0;
  }

  /** Some packet is not there yet. */
  ghost predicate Missing(got: seq<Packet?>) {
    null in got
  }

  /** The table of a heap some of whose fragments have arrived. */
  ghost predicate Receiving(t: HashTable, got: seq<Packet?>, ms: seq<Message>, at: seq<int>, hid: nat)
    requires |ms| == |got|
    reads t, t.os, got
  {
    && Filled(t.os[..], got, at) && Carried(got, ms)
    && t.data_count == Arrived(got, ms) && !t.processing && (t.data_id < 0 || t.data_id == hid)
  }

  /** The bytes arrived reach the heap length exactly with the last fragment. */
  lemma LastFragment(items: seq<Item>, size: nat, hid: nat, got: seq<Packet?>, k: nat, p: Packet)
    requires size > 0 && |got| == NumPieces(|Flat(items)|, size) && k < |got| && got[k] == null
    ensures var ms := HeapFragments(items, size, hid);
            && Arrived(got[k := p], ms) == Arrived(got, ms) + |ms[k].payload|
            && (Arrived(got[k := p], ms) == |Flat(items)| <==> !Missing(got[k := p]))
  {
    hide Flat, NumPieces, HeapFragments, BytesOf, Arrived, Missing;
    var ms := HeapFragments(items, size, hid);
    ArrivedStep(got, ms, k, p);
    if Flat(items) == [] {
      NoBytes(items, size, hid);
      ArrivedNone(got[k := p], ms);
    } else {
      SomeBytes(items, size, hid);
      ArrivedAll(got[k := p], ms);
    }
  }

  lemma SomeBytes(items: seq<Item>, size: nat, hid: nat)
    requires size > 0 && Flat(items) != []
    ensures var ms := HeapFragments(items, size, hid);
            BytesOf(ms) == Flat(items) && forall k :: 0 <= k < |ms| ==> ms[k].payload != []
  {
    BytesAreConcat(HeapFragments(items, size, hid));
    PiecesTile(items, size, hid);
    hide Flat, NumPieces, HeapFragments, BytesOf, Concat;
  }

  lemma NoBytes(items: seq<Item>, size: nat, hid: nat)
    requires size > 0 && Flat(items) == []
    ensures var ms := HeapFragments(items, size, hid); |ms| == 1 && ms[0].payload == []
  {
    assert HeapFragments(items, size, hid)[0] == Fragment(items, size, hid, 0);
    hide Flat;
    EndMonotone(0, size, 0);
  }

  lemma ArrivedNone(got: seq<Packet?>, ms: seq<Message>)
    requires |got| == |ms| == 1 && ms[0].payload == [] && got[0] != null
    ensures Arrived(got, ms) == 0 && !Missing(got)
  {
    assert got[..0] == [] && ms[..0] == [];
  }

  /** What the next fragment finds and leaves. */
  lemma NextFragment(ss: seq<seq<Packet>>, got: seq<Packet?>, items: seq<Item>, size: nat, hid: nat, k: nat, o: Packet)
    requires size > 0 && |ss| > 0 && size * (|ss| - 1) >= |Flat(items)| && items != []
    requires |got| == NumPieces(|Flat(items)|, size) && k < |got| && got[k] == null
    requires Filled(ss, got, Buckets(|Flat(items)|, size, |ss|)) && Carried(got, HeapFragments(items, size, hid))
    requires o.Unpacked() && o.Read() == Fragment(items, size, hid, k)
    ensures var id, tt := HashIndex(o.payload_off, o.heap_len, |ss|),
      Placed(ss, HashIndex(o.payload_off, o.heap_len, |ss|), o);
            var ms, got' := HeapFragments(items, size, hid), got[k := o];
            && 0 <= id < |ss| && o.payload_off >= 0 && o.heap_cnt == hid && o.heap_len == |Flat(items)|
            && o.payload_len == |ms[k].payload|
            && Filled(tt, got', Buckets(|Flat(items)|, size, |ss|)) && Carried(got', ms)
            && Concat(tt) == Packets(got') && Holds(Concat(tt), Present(got', ms)) == true
            && (!Missing(got') ==> && Present(got', ms) == ms && Complete(tt, ms, |Flat(items)|) == true
                                   && Outcome(ms) == Finished(NonEmptyItems(items), CarriesDescriptor(items)))
  {
    hide Filled, Flat, HeapFragments, NumPieces, HashIndex, Offset, Packets, Present, Concat, Placed, Complete, Outcome;
    var h, ms, at := |Flat(items)|, HeapFragments(items, size, hid), Buckets(|Flat(items)|, size, |ss|);
    assert o.payload_off == Offset(size, k) && o.heap_len == h && o.heap_cnt == hid && o.payload_len == |ms[k].payload|;
    assert HashIndex(o.payload_off, o.heap_len, |ss|) == at[k];
    assert Carried(got[k := o], ms);
    hide Fragment, Packet.Unpacked, Packet.Read;
    hide Buckets, Carried;
    FilledStep(ss, got, at, k, o);
    var tt := Placed(ss, at[k], o);
    FilledTraversal(tt, got[k := o], at);
    CarriedHolds(got[k := o], ms);
    if !Missing(got[k := o]) {
      AllPresent(got[k := o], ms);
      FragmentsComplete(tt, items, size, hid);
    }
  }

  /** Storing a packet in a table that no other heap holds. */
  method StoreInOwnTable(t: HashTable, s1: Stack, s2: Stack, p: Packet, ghost tt: seq<seq<Packet>>,
                         ghost got: seq<Packet?>, ghost ms: seq<Message>, ghost at: seq<int>, ghost hid: nat)
    returns (r: StoreResult)
    requires t.bank.Valid() && s1 != s2 && s1.Valid() && s2.Valid() && s1.data == [] && s2.data == []
    requires p.Unpacked() && 0 <= p.payload_off && p.heap_cnt == hid && (t.data_id < 0 || t.data_id == hid)
      && !t.processing
    requires 0 <= HashIndex(p.payload_off, p.heap_len, t.os.Length) < t.os.Length && |got| == |ms|
    requires tt == Placed(Found(t.os[..], true), HashIndex(p.payload_off, p.heap_len, t.os.Length), p)
    requires Holds(Concat(tt), Present(got, ms)) == true && Filled(tt, got, at) == true && Carried(got, ms) == true
    requires t.data_count + p.payload_len == Arrived(got, ms)
      && (Completes(Arrived(got, ms), p.heap_len, false) <==> !Missing(got))
    requires !Missing(got) ==> Complete(tt, Present(got, ms), Arrived(got, ms)) == true
    modifies t, t.os, t.bank, s1, s2
    ensures t.bank.Valid() && s1.Valid() && s2.Valid() && s1.data == [] && s2.data == []
    ensures if Missing(got)
            then r == Stored && t.bank.top == old(t.bank.top) && Receiving(t, got, ms, at, hid) == true
            else r == Outcome(Present(got, ms)) && t.IsEmpty() && t.bank.top == Reversed(Concat(tt)) + old(t.bank.top)
  {
    GotAllocated(got);
    hide *;
    r := StorePacket(t, s1, s2, p, Present(got, ms));
    if Missing(got) { StoredFacts(t, got, ms, at, tt, hid); }
  }

  /** Storing the next fragment, in whatever order the fragments come: the table goes on collecting, or the last one
      delivers the items and the table is empty again. */
  method ReceiveFragment(t: HashTable, s1: Stack, s2: Stack, o: Packet, ghost got: seq<Packet?>, ghost items: seq<Item>,
                         ghost size: nat, ghost hid: nat, ghost k: nat)
    returns (r: StoreResult)
    requires t.bank.Valid() && s1 != s2 && s1.Valid() && s2.Valid() && s1.data == [] && s2.data == []
    requires size > 0 && t.os.Length > 0 && size * (t.os.Length - 1) >= |Flat(items)| && items != []
    requires |got| == NumPieces(|Flat(items)|, size) && k < |got| && got[k] == null
    requires o.Unpacked() && o.Read() == Fragment(items, size, hid, k)
    requires Receiving(t, got, HeapFragments(items, size, hid), Buckets(|Flat(items)|, size, t.os.Length), hid) == true
    modifies t, t.os, t.bank, s1, s2
    ensures t.bank.Valid() && s1.Valid() && s2.Valid() && s1.data == [] && s2.data == []
    ensures if Missing(got[k := o]) then
              && r == Stored && t.bank.top == old(t.bank.top)
              && Receiving(t, got[k := o], HeapFragments(items, size, hid), Buckets(|Flat(items)|, size, t.os.Length),
                           hid) == true
            else
              && r == Finished(NonEmptyItems(items), CarriesDescriptor(items)) && t.IsEmpty()
              && t.bank.top == Reversed(Packets(got[k := o])) + old(t.bank.top)
  {
    ghost var ms, at, got' := HeapFragments(items, size, hid), Buckets(|Flat(items)|, size, t.os.Length), got[k := o];
    ghost var id := HashIndex(o.payload_off, o.heap_len, t.os.Length);
    ghost var tt := Placed(t.os[..], id, o);
    hide *;
    StoreFacts(t, got, items, size, hid, k, o);
    r := StoreInOwnTable(t, s1, s2, o, tt, got', ms, at, hid);
  }

  /** The facts the next call of StorePacket needs and leaves. */
  lemma StoreFacts(t: HashTable, got: seq<Packet?>, items: seq<Item>, size: nat, hid: nat, k: nat, o: Packet)
    requires size > 0 && t.os.Length > 0 && size * (t.os.Length - 1) >= |Flat(items)| && items != []
    requires |got| == NumPieces(|Flat(items)|, size) && k < |got| && got[k] == null
    requires o.Unpacked() && o.Read() == Fragment(items, size, hid, k)
    requires Receiving(t, got, HeapFragments(items, size, hid), Buckets(|Flat(items)|, size, t.os.Length), hid) == true
    ensures var ms, got', id := HeapFragments(items, size, hid), got[k := o],
      HashIndex(o.payload_off, o.heap_len, t.os.Length);
            var tt := Placed(Found(t.os[..], true), id, o);
            var count := t.data_count + o.payload_len;
            && (t.data_id < 0 || t.data_id == o.heap_cnt) && o.heap_cnt == hid && !t.processing
            && 0 <= id < t.os.Length && o.payload_off >= 0 && Found(t.os[..], true) == t.os[..]
            && Holds(Concat(tt), Present(got', ms)) == true && Concat(tt) == Packets(got')
            && Filled(tt, got', Buckets(|Flat(items)|, size, t.os.Length)) == true && Carried(got', ms) == true
            && count == Arrived(got', ms)
            && (Completes(count, o.heap_len, false) <==> !Missing(got'))
            && (!Missing(got') ==> && Complete(tt, Present(got', ms), count) == true
                                   && Outcome(Present(got', ms))
                                       == Finished(NonEmptyItems(items), CarriesDescriptor(items)))
  {
    hide Filled, Flat, Fragment, HeapFragments, NumPieces, HashIndex, Offset, Packets, Present, Concat, Packet.Unpacked,
      Packet.Read;
    hide Buckets, Carried, Placed, Complete, Outcome, Arrived, Holds, NonEmptyItems;
    NextFragment(t.os[..], got, items, size, hid, k, o);
    LastFragment(items, size, hid, got, k, o);
  }

  lemma StoredFacts(t: HashTable, got: seq<Packet?>, ms: seq<Message>, at: seq<int>, tt: seq<seq<Packet>>, hid: nat)
    requires |got| == |ms| && Filled(tt, got, at) == true && Carried(got, ms) == true
    ensures && t.os[..] == tt && t.data_count == Arrived(got, ms) && !t.processing && t.data_id == hid
            ==> Receiving(t, got, ms, at, hid) == true
  {}

  lemma GotAllocated(got: seq<Packet?>)
    ensures forall i :: 0 <= i < |got| ==> allocated(got[i])
  {}

  // ---- all datagrams of a heap, in any order

  /** The datagrams are those of the heap, one per fragment, in the order given. */
  ghost predicate Deliveries(datagrams: seq<seq<Byte>>, order: seq<nat>, items: seq<Item>, size: nat, hid: nat)
    requires size > 0
  {
    && |datagrams| == |order| == NumPieces(|Flat(items)|, size)
    && (forall i :: 0 <= i < |order| ==> order[i] < |order|)
    && (forall i, j :: 0 <= i < j < |order| ==> order[i] != order[j])
    && (forall i :: 0 <= i < |order| ==> Carries(datagrams[i], Fragment(items, size, hid, order[i])))
  }

  /** After i datagrams exactly the fragments named by them are there, in the first i objects of the bank. */
  ghost predicate GotFirst(got: seq<Packet?>, order: seq<nat>, i: nat, all: seq<Packet>) {
    && |got| == |order| && i <= |order| && i <= |all|
    && (forall k :: 0 <= k < |got| ==> (got[k] != null <==> k in order[..i]))
    && (forall k :: 0 <= k < |got| && got[k] != null ==> got[k] in all[..i])
    && |Keys(got)| == i && multiset(Packets(got)) == multiset(all[..i])
  }

  lemma {:induction false} KeysStep(got: seq<Packet?>, k: nat, p: Packet)
    requires k < |got| && got[k] == null
    ensures |Keys(got[k := p])| == |Keys(got)| + 1
  {
    var n, g := |got| - 1, got[k := p];
    if k == n {
      assert g[..n] == got[..n];
    } else {
      assert g[..n] == got[..n][k := p];
      KeysStep(got[..n], k, p);
    }
  }

  lemma {:induction false} PacketsGain(got: seq<Packet?>, k: nat, p: Packet)
    requires k < |got| && got[k] == null
    ensures multiset(Packets(got[k := p])) == multiset(Packets(got)) + multiset{p}
  {
    hide Packets, Keys;
    var n, g := |got| - 1, got[k := p];
    PacketsStep(got);
    PacketsStep(g);
    if k == n {
      assert g[..n] == got[..n];
    } else {
      assert g[..n] == got[..n][k := p];
      PacketsGain(got[..n], k, p);
    }
  }

  lemma PacketsStep(got: seq<Packet?>)
    requires got != []
    ensures var n := |got| - 1; Packets(got) == Packets(got[..n]) + if got[n] == null then [] else [got[n]]
  {
    var n := |got| - 1;
    KeysFacts(got[..n]);
    var ks := Keys(got[..n]);
    forall i | 0 <= i < |ks| ensures Packets(got)[i] == Packets(got[..n])[i] {
      assert Keys(got)[i] == ks[i];
    }
  }

  /** With i of n packets there, none is missing exactly if i is n. */
  lemma {:induction false} KeysCount(got: seq<Packet?>)
    ensures |Keys(got)| <= |got| && (|Keys(got)| == |got| <==> !Missing(got))
  {
    if got != [] {
      var n := |got| - 1;
      KeysCount(got[..n]);
      assert null in got <==> null in got[..n] || got[n] == null;
    }
  }

  lemma GotStep(got: seq<Packet?>, order: seq<nat>, i: nat, all: seq<Packet>)
    requires GotFirst(got, order, i, all) && i < |order| && i < |all| && order[i] < |got|
    requires forall a, b :: 0 <= a < b < |order| ==> order[a] != order[b]
    ensures got[order[i]] == null && GotFirst(got[order[i] := all[i]], order, i + 1, all)
    ensures Missing(got[order[i] := all[i]]) <==> i + 1 < |order|
  {
    hide Keys, Packets, Missing;
    var k, p := order[i], all[i];
    assert k !in order[..i];
    var g := got[k := p];
    KeysStep(got, k, p);
    PacketsGain(got, k, p);
    KeysCount(g);
    assert all[..i + 1] == all[..i] + [p] && order[..i + 1] == order[..i] + [k];
  }

  /** The state of the loop after i datagrams, some fragment still missing. */
  ghost predicate Collecting(t: HashTable, got: seq<Packet?>, all: seq<Packet>, i: nat, order: seq<nat>,
                             items: seq<Item>, size: nat, hid: nat)
    requires size > 0
    reads t, t.os, t.bank, got
  {
    && |got| == NumPieces(|Flat(items)|, size) && GotFirst(got, order, i, all) && t.bank.Valid()
      && t.bank.top == all[i..]
    && Receiving(t, got, HeapFragments(items, size, hid), Buckets(|Flat(items)|, size, t.os.Length), hid)
  }

  lemma CollectingFacts(t: HashTable, got: seq<Packet?>, all: seq<Packet>, i: nat, order: seq<nat>, items: seq<Item>,
                        size: nat, hid: nat, datagrams: seq<seq<Byte>>)
    requires size > 0 && Collecting(t, got, all, i, order, items, size, hid) && i < |order| <= |all|
    requires Deliveries(datagrams, order, items, size, hid) && Distinct(all)
    ensures var k := order[i];
            && k < |got| == |order| == |datagrams| == NumPieces(|Flat(items)|, size) && got[k] == null && all[i] !in got
            && t.bank.Valid() && t.bank.top == all[i..] && t.bank.top != [] && t.bank.top[0] == all[i]
            && Receiving(t, got, HeapFragments(items, size, hid), Buckets(|Flat(items)|, size, t.os.Length),
                         hid) == true
            && GotFirst(got[k := all[i]], order, i + 1, all) == true
            && (Missing(got[k := all[i]]) <==> i + 1 < |order|)
            && Carries(datagrams[i], Fragment(items, size, hid, k))
            && 0 < |datagrams[i]| <= MAX_PACKET_LEN && HeaderOk(Word(Padded(datagrams[i]), 0)) == true
  {
    hide Receiving, Keys, Packets, Carries, HeaderOk, Word, Fragment, HeapFragments, Buckets, NumPieces, Flat, Missing;
    GotStep(got, order, i, all);
    CarriesHeader(datagrams[i], Fragment(items, size, hid, order[i]));
    assert forall k :: 0 <= k < |got| && got[k] != null ==> got[k] in all[..i];
    assert all[i] !in all[..i];
  }

  /** The objects are back in the bank. */
  lemma BankRestored(got: seq<Packet?>, order: seq<nat>, all: seq<Packet>)
    requires |order| <= |all| && GotFirst(got, order, |order|, all)
    ensures multiset(Reversed(Packets(got)) + all[|order|..]) == multiset(all)
  {
    hide Keys, Packets;
    ReversedSame(Packets(got));
    assert all == all[..|order|] + all[|order|..];
  }

  /** The state of the loop after i datagrams: still collecting, or done with every object back in the bank. */
  ghost predicate Reached(t: HashTable, got: seq<Packet?>, all: seq<Packet>, i: nat, order: seq<nat>, items: seq<Item>,
                          size: nat, hid: nat)
    requires size > 0
    reads t, t.os, t.bank, got
  {
    if i < |order| then Collecting(t, got, all, i, order, items, size, hid)
    else t.IsEmpty() && t.bank.Valid() && multiset(t.bank.top) == multiset(all)
  }

  /** The packet just taken from the bank goes into the table. */
  method ReceiveTaken(t: HashTable, s1: Stack, s2: Stack, o: Packet, ghost got: seq<Packet?>, ghost all: seq<Packet>,
                      ghost i: nat, ghost order: seq<nat>, ghost items: seq<Item>, ghost size: nat, ghost hid: nat)
    returns (r: StoreResult)
    requires t.bank.Valid() && s1 != s2 && s1.Valid() && s2.Valid() && s1.data == [] && s2.data == []
    requires size > 0 && t.os.Length > 0 && size * (t.os.Length - 1) >= |Flat(items)| && items != []
    requires i < |order| <= |all| && |got| == NumPieces(|Flat(items)|, size) && order[i] < |got|
      && got[order[i]] == null
    requires o.Unpacked() && o.Read() == Fragment(items, size, hid, order[i]) && t.bank.top == all[i + 1..]
    requires Receiving(t, got, HeapFragments(items, size, hid), Buckets(|Flat(items)|, size, t.os.Length), hid) == true
    requires GotFirst(got[order[i] := o], order, i + 1, all) == true
      && (Missing(got[order[i] := o]) <==> i + 1 < |order|)
    modifies t, t.os, t.bank, s1, s2
    ensures t.bank.Valid() && s1.Valid() && s2.Valid() && s1.data == [] && s2.data == []
    ensures if i + 1 < |order|
            then r == Stored && Collecting(t, got[order[i] := o], all, i + 1, order, items, size, hid) == true
            else && r == Finished(NonEmptyItems(items), CarriesDescriptor(items)) && t.IsEmpty() == true
                 && multiset(t.bank.top) == multiset(all)
  {
    hide *;
    ghost var got' := got[order[i] := o];
    r := ReceiveFragment(t, s1, s2, o, got, items, size, hid, order[i]);
    if i + 1 < |order| {
      StillCollecting(t, got', all, i + 1, order, items, size, hid);
    } else {
      BankRestored(got', order, all);
    }
  }

  /** Takes the next object and reads a fragment into it; the table does not change. */
  method TakeFragment(t: HashTable, d: seq<Byte>, ghost got: seq<Packet?>, ghost all: seq<Packet>, ghost i: nat,
                      ghost ms: seq<Message>, ghost at: seq<int>, ghost hid: nat, ghost m: Message)
    returns (o: Packet?)
    requires t.bank.Valid() && i < |all| && t.bank.top == all[i..] && all[i] !in got && |got| == |ms|
    requires Receiving(t, got, ms, at, hid) == true && Carries(d, m)
    requires 0 < |d| <= MAX_PACKET_LEN && HeaderOk(Word(Padded(d), 0)) == true
    modifies t.bank, all[i]
    ensures t.bank.Valid() && t.bank.top == all[i + 1..] && o == all[i] && o.Unpacked() && o.Read() == m
    ensures Receiving(t, got, ms, at, hid) == true
  {
    GotAllocated(got);
    hide Receiving, Carries, HeaderOk, Word, Padded, Describes, Packet.Unpacked, Packet.Read;
    assert all[i..][1..] == all[i + 1..];
    o := TakeDatagram(t.bank, d, m);
  }

  /** One turn of the receiving loop. */
  method ReceiveDatagram(t: HashTable, s1: Stack, s2: Stack, d: seq<Byte>, ghost got: seq<Packet?>,
                         ghost all: seq<Packet>,
                         ghost i: nat, ghost order: seq<nat>, ghost items: seq<Item>, ghost size: nat, ghost hid: nat,
                         ghost datagrams: seq<seq<Byte>>)
    returns (r: StoreResult, ghost got': seq<Packet?>)
    requires s1 != s2 && s1.Valid() && s2.Valid() && s1.data == [] && s2.data == []
    requires size > 0 && t.os.Length > 0 && size * (t.os.Length - 1) >= |Flat(items)| && items != []
    requires Reached(t, got, all, i, order, items, size, hid) == true && i < |order| <= |all|
    requires Deliveries(datagrams, order, items, size, hid) == true && Distinct(all) && i < |datagrams|
      && d == datagrams[i]
    modifies t, t.os, t.bank, s1, s2, all
    ensures t.bank.Valid() && s1.Valid() && s2.Valid() && s1.data == [] && s2.data == []
    ensures Reached(t, got', all, i + 1, order, items, size, hid) == true
    ensures r == if i + 1 < |order| then Stored else Finished(NonEmptyItems(items), CarriesDescriptor(items))
  {
    hide *;
    ReachedIs(t, got, all, i, order, items, size, hid);
    CollectingFacts(t, got, all, i, order, items, size, hid, datagrams);
    var o := TakeFragment(t, d, got, all, i, HeapFragments(items, size, hid), Buckets(|Flat(items)|, size, t.os.Length),
                          hid, Fragment(items, size, hid, order[i]));
    if o == null { return Rejected, got; }
    got' := got[order[i] := o];
    r := ReceiveTaken(t, s1, s2, o, got, all, i, order, items, size, hid);
    ReachedIs(t, got', all, i + 1, order, items, size, hid);
  }

  lemma ReachedIs(t: HashTable, got: seq<Packet?>, all: seq<Packet>, i: nat, order: seq<nat>, items: seq<Item>,
                  size: nat, hid: nat)
    requires size > 0
    ensures Reached(t, got, all, i, order, items, size, hid)
        <==> if i < |order| then Collecting(t, got, all, i, order, items, size, hid) == true
             else t.IsEmpty() == true && t.bank.Valid() && multiset(t.bank.top) == multiset(all)
  {}

  lemma StillCollecting(t: HashTable, got: seq<Packet?>, all: seq<Packet>, i: nat, order: seq<nat>, items: seq<Item>,
                        size: nat, hid: nat)
    requires size > 0 && |got| == NumPieces(|Flat(items)|, size) && GotFirst(got, order, i, all) == true
      && t.bank.Valid()
    requires t.bank.top == all[i..]
    requires Receiving(t, got, HeapFragments(items, size, hid), Buckets(|Flat(items)|, size, t.os.Length), hid) == true
    ensures Collecting(t, got, all, i, order, items, size, hid) == true
  {}

  /** Nothing has arrived yet. */
  lemma StartCollecting(t: HashTable, all: seq<Packet>, order: seq<nat>, items: seq<Item>, size: nat, hid: nat)
    returns (got: seq<Packet?>)
    requires size > 0 && t.os.Length > 0 && size * (t.os.Length - 1) >= |Flat(items)| && t.IsEmpty() == true
      && t.bank.Valid()
    requires t.bank.top == all && |order| == NumPieces(|Flat(items)|, size)
    ensures Collecting(t, got, all, 0, order, items, size, hid)
  {
    hide Flat, NumPieces, HeapFragments, Keys, Packets, Arrived, Buckets;
    var ms := HeapFragments(items, size, hid);
    got := seq(|ms|, k => null);
    BucketsSpread(|Flat(items)|, size, t.os.Length);
    NothingYet(got, ms);
    assert all[..0] == [] && all[0..] == all;
  }

  lemma {:induction false} NothingYet(got: seq<Packet?>, ms: seq<Message>)
    requires |got| == |ms| && forall k :: 0 <= k < |got| ==> got[k] == null
    ensures Keys(got) == [] && Packets(got) == [] && Arrived(got, ms) == 0
  {
    if got != [] { NothingYet(got[..|got| - 1], ms[..|ms| - 1]); }
  }

  lemma DeliveryCount(datagrams: seq<seq<Byte>>, order: seq<nat>, items: seq<Item>, size: nat, hid: nat)
    requires size > 0 && Deliveries(datagrams, order, items, size, hid)
    ensures |datagrams| == |order| == NumPieces(|Flat(items)|, size) && |order| > 0
  {}

  /**
  The datagrams of a heap, each received once and in any order into an empty table with enough buckets, give exactly
  one item group: the non-empty items, in order, with their ids and bytes; and all objects are back in the bank.
   */
  method ReceiveHeap(t: HashTable, s1: Stack, s2: Stack, datagrams: seq<seq<Byte>>, ghost order: seq<nat>,
                     ghost items: seq<Item>, ghost size: nat, ghost hid: nat)
    returns (groups: seq<StoreResult>)
    requires s1 != s2 && s1.Valid() && s2.Valid() && s1.data == [] && s2.data == [] && t.IsEmpty() == true
      && t.bank.Valid()
    requires size > 0 && t.os.Length > 0 && size * (t.os.Length - 1) >= |Flat(items)| && items != []
    requires Deliveries(datagrams, order, items, size, hid) == true && Distinct(t.bank.top) && |order| <= |t.bank.top|
    modifies t, t.os, t.bank, s1, s2, t.bank.top
    ensures groups == [Finished(NonEmptyItems(items), CarriesDescriptor(items))]
    ensures t.IsEmpty() == true && t.bank.Valid() && multiset(t.bank.top) == multiset(old(t.bank.top))
  {
    hide *;
    ghost var all := t.bank.top;
    DeliveryCount(datagrams, order, items, size, hid);
    ghost var got := StartCollecting(t, all, order, items, size, hid);
    ReachedIs(t, got, all, 0, order, items, size, hid);
    groups := [];
    for i := 0 to |datagrams|
      invariant s1.Valid() && s2.Valid() && s1.data == [] && s2.data == []
      invariant Reached(t, got, all, i, order, items, size, hid) == true
      invariant groups == if i < |order| then [] else [Finished(NonEmptyItems(items), CarriesDescriptor(items))]
    {
      var r;
      r, got := ReceiveDatagram(t, s1, s2, datagrams[i], got, all, i, order, items, size, hid, datagrams);
      if r.Finished? { groups := groups + [r]; }
    }
    ReachedIs(t, got, all, |order|, order, items, size, hid);
  }

  // ---- end to end

  /** Datagram k carries fragment k. */
  ghost predicate OnWire(wire: seq<seq<Byte>>, items: seq<Item>, size: nat, hid: nat) {
    forall k :: 0 <= k < |wire| ==> Carries(wire[k], Fragment(items, size, hid, k))
  }

  lemma OneMoreOnWire(wire: seq<seq<Byte>>, d: seq<Byte>, items: seq<Item>, size: nat, hid: nat)
    requires OnWire(wire, items, size, hid) && Carries(d, Fragment(items, size, hid, |wire|)) == true
    ensures OnWire(wire + [d], items, size, hid) == true
  {
    hide Carries, Fragment;
  }

  /** The datagrams of a table, in traversal order: header, item pointers and payload of each packet. */
  method SendTable(ht: HashTable, ghost items: seq<Item>, ghost size: nat, ghost hid: nat)
    returns (wire: seq<seq<Byte>>)
    requires size > 0 && Received(ht.Contents(), items, size, hid) == true
    ensures |wire| == |ht.Contents()| && OnWire(wire, items, size, hid) == true
  {
    var packets := ht.Contents();
    SeqAllocated(packets);
    wire := [];
    assert OnWire(wire, items, size, hid);
    hide *;
    for k := 0 to |packets|
      invariant |wire| == k && OnWire(wire, items, size, hid) == true
    {
      var d := SendPacket(packets, k, items, size, hid);
      OneMoreOnWire(wire, d, items, size, hid);
      wire := wire + [d];
    }
  }

  method SendPacket(packets: seq<Packet>, k: nat, ghost items: seq<Item>, ghost size: nat, ghost hid: nat)
    returns (d: seq<Byte>)
    requires size > 0 && Received(packets, items, size, hid) == true && k < |packets|
    ensures Carries(d, Fragment(items, size, hid, k)) == true
  {
    var p := packets[k];
    ReceivedAt(packets, items, size, hid, k);
    WireOfPacket(p, Fragment(items, size, hid, k));
    hide *;
    d := p.data[..8 + p.n_items * 8 + p.payload_len];
  }

  lemma ReceivedAt(ps: seq<Packet>, items: seq<Item>, size: nat, hid: nat, k: nat)
    requires Received(ps, items, size, hid) && k < |ps|
    ensures ps[k].Unpacked() && ps[k].Read() == Fragment(items, size, hid, k)
      && Faithful(ps[k], Fragment(items, size, hid, k)) == true
  {}

  lemma WireOfPacket(p: Packet, m: Message)
    requires p.Unpacked() && p.Read() == m && Faithful(p, m) == true
    ensures 0 <= 8 + p.n_items * 8 + p.payload_len <= |p.data|
    ensures Carries(p.data[..8 + p.n_items * 8 + p.payload_len], m) == true
  {
    hide Describes, HeaderItems, Word, Carries;
    assert |m.payload| == p.payload_len;
    WireCarries(p.data, m);
  }

  /** An order in which each of n packets is delivered once. */
  ghost predicate IsOrder(order: seq<nat>, n: nat) {
    && |order| == n && (forall i :: 0 <= i < n ==> order[i] < n)
    && (forall i, j :: 0 <= i < j < n ==> order[i] != order[j])
  }

  /**
  An item group is packetized, its datagrams are delivered once each in any order, and the receiver, with enough
  buckets, hands on exactly one item group: the non-empty items in order, with their ids and bytes.
   */
  method TransferHeap(txBank: ObjectBank, tx: HashTable, ig: seq<Item>, pkt_size: nat, hid: nat, order: seq<nat>,
                      rx: HashTable, s1: Stack, s2: Stack)
    returns (groups: seq<StoreResult>)
    requires InDomain(ig, hid) && pkt_size > 0 && Sendable(|ig|, pkt_size, tx.os.Length)
    requires txBank.Valid() && Distinct(txBank.top) && Buffers(txBank.top)
    requires forall j :: 0 <= j < tx.os.Length ==> tx.os[j] == []
    requires |txBank.top| >= NumPieces(|Flat(ig)|, pkt_size) && IsOrder(order, NumPieces(|Flat(ig)|, pkt_size))
    requires rx.IsEmpty() && rx.os.Length > 0 && pkt_size * (rx.os.Length - 1) >= |Flat(ig)|
    requires rx.bank.Valid() && Distinct(rx.bank.top) && |order| <= |rx.bank.top|
    requires s1 != s2 && s1.Valid() && s2.Valid() && s1.data == [] && s2.data == []
    requires txBank != rx.bank && tx != rx && tx.os != rx.os && forall p :: p in rx.bank.top ==> p !in txBank.top
    modifies txBank, txBank.top, tx.os, rx, rx.os, rx.bank, rx.bank.top, s1, s2
    ensures groups == [Finished(NonEmptyItems(ig), CarriesDescriptor(ig))]
  {
    hide Flat, NumPieces, Received, NonEmptyItems, CarriesDescriptor, Distinct, Buffers, Carries, Fragment,
      InDomain;
    var table := PacketizeItemGroup(txBank, tx, ig, pkt_size, hid);
    var wire := SendTable(tx, ig, pkt_size, hid);
    var datagrams := seq(|order|, i requires 0 <= i < |order| => if order[i] < |wire| then wire[order[i]] else []);
    assert |ig| > 0 && ig != [];
    assert Deliveries(datagrams, order, ig, pkt_size, hid);
    groups := ReceiveHeap(rx, s1, s2, datagrams, order, ig, pkt_size, hid);
  }
}
