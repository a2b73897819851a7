/**
Packet objects, the bank they are taken from and the hash tables that hold the packets of a heap. A chain of objects
is a sequence; the bucket of a packet is its payload offset scaled from the heap length to the table length.
 */
module HeapStore {
  import opened Bits
  import opened Sequences
  import opened SpeadLayout

  // ---- what a receiver reads from a packet

  predicate Reserved(id: nat) {
    id == HEAP_CNT_ID || id == HEAP_LEN_ID || id == PAYLOAD_OFF_ID || id == PAYLOAD_LEN_ID || id == STREAM_CTRL_ID
  }

  function Pointers(data: seq<Byte>, n: nat): (ps: seq<Pointer>)
    requires 8 * n + 8 <= |data|
    ensures |ps| == n
  {
    if n == 0 then [] else Pointers(data, n - 1) + [ItemPointer(Word(data, n))]
  }

  lemma {:induction false} PointersAt(data: seq<Byte>, n: nat, i: nat)
    requires 8 * n + 8 <= |data| && i < n
    ensures Pointers(data, n)[i] == ItemPointer(Word(data, i + 1))
  {
    if i < n - 1 { PointersAt(data, n - 1, i); }
  }

  /** The address of the last pointer with the given id. */
  function LastAddr(ps: seq<Pointer>, id: nat, before: int): int {
    if ps == [] then before
    else if ps[|ps| - 1].id == id then ps[|ps| - 1].addr
    else LastAddr(ps[..|ps| - 1], id, before)
  }

  /** The pointers that are not packet bookkeeping. */
  function UserPointers(ps: seq<Pointer>): seq<Pointer> {
    if ps == [] then []
    else UserPointers(ps[..|ps| - 1]) + if Reserved(ps[|ps| - 1].id) then [] else [ps[|ps| - 1]]
  }

  /** A packet as the receiver understands it. */
  datatype Message = Message(cnt: int, heapLen: int, off: int, items: seq<Pointer>, payload: seq<Byte>)

  class Packet {
    var data: seq<Byte>
    var heap_cnt: int
    var heap_len: int
    var n_items: nat
    var payload_len: int
    var payload_off: int
    var payload: nat

    /** The header words and the payload lie inside the buffer. */
    predicate Unpacked()
      reads this
    {
      |data| == MAX_PACKET_LEN && payload == 8 + 8 * n_items && 0 <= payload_len && payload + payload_len <= |data|
    }

    function Read(): Message
      requires Unpacked()
      reads this
    {
      Message(heap_cnt, heap_len, payload_off, UserPointers(Pointers(data, n_items)),
              data[payload..payload + payload_len])
    }

    constructor ()
      ensures |data| == MAX_PACKET_LEN && forall i :: 0 <= i < |data| ==> data[i] == 0
      ensures heap_cnt == heap_len == -1 && n_items == 0 && payload_len == 0 && payload_off == 0 && payload == 0
    {
      data := seq(MAX_PACKET_LEN, _ => 0);
      heap_cnt, heap_len, n_items, payload_len, payload_off, payload := -1, -1, 0, 0, 0, 0;
    }

    /** Clears the whole record. */
    method Clear()
      modifies this
      ensures |data| == MAX_PACKET_LEN && forall i :: 0 <= i < |data| ==> data[i] == 0
      ensures heap_cnt == heap_len == 0 && n_items == 0 && payload_len == 0 && payload_off == 0 && payload == 0
    {
      data := seq(MAX_PACKET_LEN, _ => 0);
      heap_cnt, heap_len, n_items, payload_len, payload_off, payload := 0, 0, 0, 0, 0, 0;
    }

    method SetItem(n: nat, w: nat)
      requires 8 * n + 8 <= |data|
      modifies this`data
      ensures data == SetWord(old(data), n, w)
    {
      data := SetWord(data, n, w);
    }

    method UnpackHeader() returns (ok: bool)
      requires |data| == MAX_PACKET_LEN
      modifies this`n_items, this`payload
      ensures ok == HeaderOk(Word(data, 0))
      ensures ok ==> n_items == HeaderItems(Word(data, 0)) && payload == 8 + 8 * n_items
      ensures !ok ==> n_items == old(n_items) && payload == old(payload)
    {
      var hdr := Word(data, 0);
      if !HeaderOk(hdr) { return false; }
      n_items := HeaderItems(hdr);
      payload := 8 + n_items * 8;
      return true;
    }

    /** The last pointer with a reserved id wins; a field no pointer names keeps its value. */
    method UnpackItems()
      requires 8 * n_items + 8 <= |data|
      modifies this`heap_cnt, this`heap_len, this`payload_off, this`payload_len
      ensures heap_cnt == LastAddr(Pointers(data, n_items), HEAP_CNT_ID, old(heap_cnt))
      ensures heap_len == LastAddr(Pointers(data, n_items), HEAP_LEN_ID, old(heap_len))
      ensures payload_off == LastAddr(Pointers(data, n_items), PAYLOAD_OFF_ID, old(payload_off))
      ensures payload_len == LastAddr(Pointers(data, n_items), PAYLOAD_LEN_ID, old(payload_len))
    {
      for i := 1 to n_items + 1
        invariant heap_cnt == LastAddr(Pointers(data, i - 1), HEAP_CNT_ID, old(heap_cnt))
        invariant heap_len == LastAddr(Pointers(data, i - 1), HEAP_LEN_ID, old(heap_len))
        invariant payload_off == LastAddr(Pointers(data, i - 1), PAYLOAD_OFF_ID, old(payload_off))
        invariant payload_len == LastAddr(Pointers(data, i - 1), PAYLOAD_LEN_ID, old(payload_len))
      {
        var item := Word(data, i);
        ghost var before, ps := Pointers(data, i - 1), Pointers(data, i);
        assert ps[..|ps| - 1] == before && ps[|ps| - 1] == ItemPointer(item);
        hide Pointers, Word;
        match ItemId(item) {
          case 1 => heap_cnt := ItemAddr(item);
          case 2 => heap_len := ItemAddr(item);
          case 3 => payload_off := ItemAddr(item);
          case 4 => payload_len := ItemAddr(item);
          case _ =>
        }
      }
    }
  }

  /** Reads the header and the item pointers back from the buffer. */
  method Unpack(p: Packet) returns (ok: bool)
    requires |p.data| == MAX_PACKET_LEN
    requires HeaderOk(Word(p.data, 0)) ==> 8 * HeaderItems(Word(p.data, 0)) + 8 <= MAX_PACKET_LEN
    modifies p`n_items, p`payload, p`heap_cnt, p`heap_len, p`payload_off, p`payload_len
    ensures ok == HeaderOk(Word(p.data, 0))
    ensures ok ==> && p.n_items == HeaderItems(Word(p.data, 0)) && p.payload == 8 + 8 * p.n_items
                   && var ps := Pointers(p.data, p.n_items);
                      && p.heap_cnt == LastAddr(ps, HEAP_CNT_ID, old(p.heap_cnt))
                      && p.heap_len == LastAddr(ps, HEAP_LEN_ID, old(p.heap_len))
                      && p.payload_off == LastAddr(ps, PAYLOAD_OFF_ID, old(p.payload_off))
                      && p.payload_len == LastAddr(ps, PAYLOAD_LEN_ID, old(p.payload_len))
  {
    hide *;
    ok := p.UnpackHeader();
    if ok { p.UnpackItems(); }
  }

  /** The bytes of a packet that carries the message. */
  ghost predicate Describes(data: seq<Byte>, m: Message) {
    && 8 <= |data| <= MAX_PACKET_LEN && HeaderOk(Word(data, 0))
    && var n := HeaderItems(Word(data, 0));
       && 8 + 8 * n + |m.payload| <= |data|
       && m.cnt >= 0 && m.heapLen >= 0 && m.off >= 0
       && LastAddr(Pointers(data, n), HEAP_CNT_ID, -1) == m.cnt
       && LastAddr(Pointers(data, n), HEAP_LEN_ID, -1) == m.heapLen
       && LastAddr(Pointers(data, n), PAYLOAD_OFF_ID, -1) == m.off
       && LastAddr(Pointers(data, n), PAYLOAD_LEN_ID, -1) == |m.payload|
       && UserPointers(Pointers(data, n)) == m.items
       && data[8 + 8 * n..8 + 8 * n + |m.payload|] == m.payload
  }

  /** The object's bytes carry the message, and its item count is that of its header. */
  ghost predicate Faithful(p: Packet, m: Message)
    reads p
  {
    Describes(p.data, m) && p.n_items == HeaderItems(Word(p.data, 0))
  }

  /** The bytes that go out on the wire. */
  function WireLength(data: seq<Byte>, m: Message): int
    requires |data| >= 8
  {
    8 + 8 * HeaderItems(Word(data, 0)) + |m.payload|
  }

  /** A field that some pointer names does not depend on its earlier value. */
  lemma {:induction false} NamedField(ps: seq<Pointer>, id: nat, before: int)
    requires LastAddr(ps, id, -1) >= 0
    ensures LastAddr(ps, id, before) == LastAddr(ps, id, -1)
  {
    if ps != [] && ps[|ps| - 1].id != id { NamedField(ps[..|ps| - 1], id, before); }
  }

  /** Unpacking bytes that carry a message gives the message, whatever the object held before. */
  method UnpackMessage(p: Packet, ghost m: Message) returns (ok: bool)
    requires |p.data| == MAX_PACKET_LEN && (HeaderOk(Word(p.data, 0)) ==> Describes(p.data, m))
    modifies p`n_items, p`payload, p`heap_cnt, p`heap_len, p`payload_off, p`payload_len
    ensures ok == HeaderOk(Word(p.data, 0)) && (ok ==> p.Unpacked() && p.Read() == m && Faithful(p, m))
  {
    hide HeaderOk, HeaderItems, Word, Pointers, LastAddr, UserPointers;
    if HeaderOk(Word(p.data, 0)) {
      ghost var ps := Pointers(p.data, HeaderItems(Word(p.data, 0)));
      NamedField(ps, HEAP_CNT_ID, p.heap_cnt);
      NamedField(ps, HEAP_LEN_ID, p.heap_len);
      NamedField(ps, PAYLOAD_OFF_ID, p.payload_off);
      NamedField(ps, PAYLOAD_LEN_ID, p.payload_len);
    }
    ok := Unpack(p);
  }

  lemma SameSlice(a: seq<Byte>, b: seq<Byte>, len: nat, lo: nat, hi: nat)
    requires len <= |a| && len <= |b| && a[..len] == b[..len] && lo <= hi <= len
    ensures a[lo..hi] == b[lo..hi]
  {
    forall k | lo <= k < hi ensures a[k] == b[k] { assert a[..len][k] == b[..len][k]; }
  }

  lemma {:induction false} PointersOfPrefix(data: seq<Byte>, other: seq<Byte>, n: nat, len: nat)
    requires 8 * n + 8 <= len <= |data| && len <= |other| && data[..len] == other[..len]
    ensures Pointers(data, n) == Pointers(other, n)
  {
    if n > 0 {
      PointersOfPrefix(data, other, n - 1, len);
      SameSlice(data, other, len, 8 * n, 8 * n + 8);
    }
  }

  /** Only the bytes on the wire matter. */
  lemma WireSuffices(data: seq<Byte>, other: seq<Byte>, m: Message)
    requires Describes(data, m) && WireLength(data, m) <= |other| <= MAX_PACKET_LEN
    requires other[..WireLength(data, m)] == data[..WireLength(data, m)]
    ensures Describes(other, m)
  {
    hide HeaderOk, HeaderItems, Pointers, LastAddr, UserPointers, FromBytes;
    var n, len := HeaderItems(Word(data, 0)), WireLength(data, m);
    SameSlice(data, other, len, 0, 8);
    PointersOfPrefix(data, other, n, len);
    SameSlice(data, other, len, 8 + 8 * n, len);
  }

  // ---- chains of objects

  function Concat<T>(ss: seq<seq<T>>): (s: seq<T>) {
    if ss == [] then [] else Concat(ss[..|ss| - 1]) + ss[|ss| - 1]
  }

  lemma NoBuckets<T>(ss: seq<seq<T>>)
    ensures Concat(ss[..0]) == [] && Reversed<T>([]) == []
  {}

  lemma ConcatStep<T>(ss: seq<seq<T>>, i: nat)
    requires i < |ss|
    ensures Concat(ss[..i + 1]) == Concat(ss[..i]) + ss[i]
  {
    assert ss[..i + 1][..i] == ss[..i];
  }

  /** The bank of free objects: a stack. */
  class ObjectBank {
    var top: seq<Packet>
    var len: int

    predicate Valid()
      reads this
    {
      len == |top|
    }

    /** A bank of n new objects. */
    constructor (n: nat)
      ensures Valid() && len == |top| == n && Distinct(top) && forall o :: o in top ==> fresh(o)
    {
      top, len := [], n;
      new;
      for j := 0 to n
        invariant |top| == j && len == n && Distinct(top) && forall o :: o in top ==> fresh(o)
      {
        var o := new Packet();
        DistinctCons(o, top);
        top := [o] + top;
      }
    }

    method Pop() returns (o: Packet?)
      requires Valid()
      modifies this
      ensures Valid()
      ensures old(top) == [] ==> o == null && top == []
      ensures old(top) != [] ==> o == old(top)[0] && top == old(top)[1..]
    {
      if top == [] { return null; }
      o := top[0];
      top := top[1..];
      len := len - 1;
    }

    method Push(o: Packet)
      requires Valid()
      modifies this
      ensures Valid() && top == [o] + old(top)
    {
      top := [o] + top;
      len := len + 1;
    }

    /** Pushes the objects of a chain one by one. */
    method PushChain(chain: seq<Packet>)
      requires Valid()
      modifies this
      ensures Valid() && top == Reversed(chain) + old(top)
    {
      for j := 0 to |chain|
        invariant Valid() && top == Reversed(chain[..j]) + old(top)
      {
        assert chain[..j + 1][..j] == chain[..j];
        Push(chain[j]);
      }
      assert chain[..|chain|] == chain;
    }
  }

  // ---- hash tables

  /** The bucket of a payload offset, or -1 for a table without buckets. */
  function HashIndex(off: nat, heapLen: int, tLen: nat): (id: int) {
    if heapLen <= 0 then 0
    else if tLen == 0 then -1
    else Quot(off * (tLen - 1), heapLen)
  }

  class HashTable {
    const bank: ObjectBank
    const os: array<seq<Packet>>
    var data_count: int
    var data_id: int
    var items: int
    var processing: bool

    constructor (bank: ObjectBank, tLen: nat)
      ensures fresh(os) && os.Length == tLen && this.bank == bank && IsEmpty()
    {
      this.bank := bank;
      os := new seq<Packet>[tLen](_ => []);
      data_count, data_id, items, processing := 0, -1, 0, false;
    }

    /** The packets in the order an in-order traversal meets them. */
    function Contents(): seq<Packet>
      reads this, os
    {
      Concat(os[..])
    }

    predicate IsEmpty()
      reads this, os
    {
      (forall i :: 0 <= i < os.Length ==> os[i] == []) && data_count == 0 && data_id == -1 && items == 0 && !processing
    }

    method AddObject(o: Packet) returns (ok: bool)
      requires 0 <= o.payload_off
      modifies os
      ensures var id := HashIndex(o.payload_off, o.heap_len, os.Length);
              && ok == (0 <= id < os.Length)
              && os[..] == (if ok then old(os[..])[id := old(os[..])[id] + [o]] else old(os[..]))
    {
      var id := HashIndex(o.payload_off, o.heap_len, os.Length);
      if id < 0 || id >= os.Length { return false; }
      os[id] := os[id] + [o];
      return true;
    }

    /** Every object goes back to the bank. */
    method Empty()
      requires bank.Valid()
      modifies this, os, bank
      ensures IsEmpty() && bank.Valid() && bank.top == Reversed(old(Contents())) + old(bank.top)
    {
      ReturnAll();
      data_count, data_id, items, processing := 0, -1, 0, false;
      forall i | 0 <= i < os.Length { os[i] := []; }
    }

    /** Pushes the bucket chains to the bank, one bucket after the other. */
    method ReturnAll()
      requires bank.Valid()
      modifies bank
      ensures bank.Valid() && bank.top == Reversed(Contents()) + old(bank.top)
    {
      hide Reversed, Concat;
      ghost var was, top := os[..], bank.top;
      NoBuckets(was);
      for i := 0 to os.Length
        invariant bank.Valid() && bank.top == Reversed(Concat(was[..i])) + top
      {
        ConcatStep(was, i);
        ReversedConcat(Concat(was[..i]), was[i]);
        bank.PushChain(os[i]);
      }
      assert was[..os.Length] == was;
    }
  }
}
