/**
What a heap looks like on the wire: the item data laid end to end and cut into pieces of the packet size, the first
piece carrying one pointer per item at the offset where its data starts.
 */
module Fragments {
  import opened Bits
  import opened SpeadLayout
  import opened HeapStore

  datatype Item = Item(id: nat, data: seq<Byte>)

  function Flat(items: seq<Item>): seq<Byte> {
    if items == [] then [] else Flat(items[..|items| - 1]) + items[|items| - 1].data
  }

  function ItemPointers(items: seq<Item>): (ps: seq<Pointer>)
    ensures |ps| == |items|
  {
    if items == [] then []
    else
      var init := items[..|items| - 1];
      ItemPointers(init) + [Pointer(DIRECT, items[|items| - 1].id, |Flat(init)|)]
  }

  lemma {:induction false} FlatPrefix(items: seq<Item>, i: nat)
    requires i <= |items|
    ensures |Flat(items[..i])| <= |Flat(items)| && Flat(items)[..|Flat(items[..i])|] == Flat(items[..i])
  {
    if i == |items| {
      assert items[..i] == items;
    } else {
      var init := items[..|items| - 1];
      assert init[..i] == items[..i];
      FlatPrefix(init, i);
    }
  }

  /** The data of item i stands in the flat data right after the data of the items before it. */
  lemma ItemInFlat(items: seq<Item>, i: nat)
    requires i < |items|
    ensures var a, b := |Flat(items[..i])|, |Flat(items[..i + 1])|;
            a <= b <= |Flat(items)| && b == a + |items[i].data| && Flat(items)[a..b] == items[i].data
  {
    var front := items[..i + 1];
    assert front[..i] == items[..i] && front[i] == items[i];
    FlatPrefix(items, i + 1);
    var a, b := |Flat(items[..i])|, |Flat(front)|;
    assert Flat(front) == Flat(items[..i]) + items[i].data;
    assert Flat(items)[a..b] == Flat(items)[..b][a..];
  }

  lemma {:induction false} PointerAt(items: seq<Item>, i: nat)
    requires i < |items|
    ensures ItemPointers(items)[i] == Pointer(DIRECT, items[i].id, |Flat(items[..i])|)
  {
    if i < |items| - 1 {
      var init := items[..|items| - 1];
      PointerAt(init, i);
      assert init[..i] == items[..i];
    }
  }

  // ---- pieces

  function NumPieces(h: nat, size: nat): (k: nat)
    requires size > 0
    ensures k > 0
  {
    if h <= size then 1 else 1 + NumPieces(h - size, size)
  }

  /** There is a piece for every multiple of the size below the length, and always a first one. */
  lemma {:induction false} PieceExists(h: nat, size: nat, k: nat)
    requires size > 0
    ensures k < NumPieces(h, size) <==> k == 0 || k * size < h
    decreases h
  {
    if h <= size {
      if k > 0 { MulMonotone(size, 1, k); }
    } else if k > 0 {
      PieceExists(h - size, size, k - 1);
      assert (k - 1) * size == k * size - size;
    }
  }

  function Offset(size: nat, k: nat): nat { k * size }

  function Min(a: int, b: int): int { if a <= b then a else b }

  /** The number of bytes in the first k pieces. */
  function PieceEnd(h: nat, size: nat, k: nat): (e: nat)
    ensures e <= h
  {
    Min(k * size, h)
  }

  /** The bytes of piece k. */
  function Piece(flat: seq<Byte>, size: nat, k: nat): seq<Byte>
    requires PieceEnd(|flat|, size, k) <= PieceEnd(|flat|, size, k + 1)
  {
    flat[PieceEnd(|flat|, size, k)..PieceEnd(|flat|, size, k + 1)]
  }

  lemma EndMonotone(h: nat, size: nat, k: nat)
    ensures PieceEnd(h, size, k) <= PieceEnd(h, size, k + 1)
  {
    assert (k + 1) * size == k * size + size;
  }

  function Fragment(items: seq<Item>, size: nat, cnt: nat, k: nat): Message {
    EndMonotone(|Flat(items)|, size, k);
    Message(cnt, |Flat(items)|, Offset(size, k), if k == 0 then ItemPointers(items) else [],
            Piece(Flat(items), size, k))
  }

  /** The packets of a heap. */
  function HeapFragments(items: seq<Item>, size: nat, cnt: nat): (ms: seq<Message>)
    requires size > 0
    ensures |ms| == NumPieces(|Flat(items)|, size)
    ensures forall k :: 0 <= k < |ms| ==> ms[k] == Fragment(items, size, cnt, k)
  {
    seq(NumPieces(|Flat(items)|, size), k requires k >= 0 => Fragment(items, size, cnt, k))
  }

  function Payloads(ms: seq<Message>): (ps: seq<seq<Byte>>)
    ensures |ps| == |ms|
  {
    seq(|ms|, i requires 0 <= i < |ms| => ms[i].payload)
  }

  /** Where piece k starts and ends. */
  lemma PieceBounds(h: nat, size: nat, k: nat)
    requires size > 0 && k < NumPieces(h, size)
    ensures PieceEnd(h, size, 0) == 0 && PieceEnd(h, size, k) == k * size <= h
    ensures h > 0 ==> k * size < h
    ensures k + 1 < NumPieces(h, size) ==> PieceEnd(h, size, k + 1) == k * size + size < h
    ensures k + 1 == NumPieces(h, size) ==> PieceEnd(h, size, k + 1) == h <= k * size + size
  {
    PieceExists(h, size, k);
    PieceExists(h, size, k + 1);
    assert (k + 1) * size == k * size + size;
  }

  /** The first k payloads concatenated are the first bytes of the flat data. */
  lemma {:induction false} PayloadsArePrefix(items: seq<Item>, size: nat, cnt: nat, k: nat)
    requires size > 0 && k <= NumPieces(|Flat(items)|, size)
    ensures Concat(Payloads(HeapFragments(items, size, cnt)[..k])) == Flat(items)[..PieceEnd(|Flat(items)|, size, k)]
  {
    var ms := HeapFragments(items, size, cnt);
    if k > 0 {
      PayloadsArePrefix(items, size, cnt, k - 1);
      EndMonotone(|Flat(items)|, size, k - 1);
      PayloadsStep(ms, k);
      assert ms[k - 1].payload == Piece(Flat(items), size, k - 1);
      hide *;
      var flat := Flat(items);
      var lo, hi := PieceEnd(|flat|, size, k - 1), PieceEnd(|flat|, size, k);
      assert flat[..lo] + flat[lo..hi] == flat[..hi];
    }
  }

  lemma PayloadsStep(ms: seq<Message>, k: nat)
    requires 0 < k <= |ms|
    ensures Concat(Payloads(ms[..k])) == Concat(Payloads(ms[..k - 1])) + ms[k - 1].payload
  {
    assert Payloads(ms[..k])[..k - 1] == Payloads(ms[..k - 1]);
  }

  /** Every piece but the last is full, none of a non-empty heap is empty, and together they are the heap. */
  lemma PiecesTile(items: seq<Item>, size: nat, cnt: nat)
    requires size > 0
    ensures var flat, ms := Flat(items), HeapFragments(items, size, cnt);
            && Concat(Payloads(ms)) == flat
            && (forall k :: 0 <= k < |ms| - 1 ==> |ms[k].payload| == size)
            && (flat != [] ==> forall k :: 0 <= k < |ms| ==> 0 < |ms[k].payload| <= size)
  {
    var flat, ms := Flat(items), HeapFragments(items, size, cnt);
    var n := |ms|;
    assert ms[..n] == ms;
    PayloadsArePrefix(items, size, cnt, n);
    PieceBounds(|flat|, size, n - 1);
    assert flat[..|flat|] == flat;
    forall k | 0 <= k < n
      ensures k < n - 1 ==> |ms[k].payload| == size
      ensures flat != [] ==> 0 < |ms[k].payload| <= size
    {
      PieceBounds(|flat|, size, k);
      EndMonotone(|flat|, size, k);
      assert ms[k].payload == Piece(flat, size, k);
      hide Flat, NumPieces, Fragment, HeapFragments, PieceEnd;
    }
  }
}
