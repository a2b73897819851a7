/**
The SPEAD wire layout: 64-bit words in network byte order, the header word, item pointers packed as mode, id and
address, and what a receiver reads back from a packet's bytes. Shifts and masks are written as multiplications,
quotients and remainders by powers of two; the packed fields do not overlap, so `|` is a sum.
 */
module SpeadLayout {
  import Bits

  type Byte = x: int | 0 <= x < 256

  const WORD_LIMIT := 0x1_0000_0000_0000_0000
  const MODE_UNIT := 0x8000_0000_0000_0000
  const ID_LIMIT := 0x80_0000
  const ADDR_LIMIT := 0x100_0000_0000

  const DIRECT := 0
  const IMMEDIATE := 1

  const HEAP_CNT_ID := 1
  const HEAP_LEN_ID := 2
  const PAYLOAD_OFF_ID := 3
  const PAYLOAD_LEN_ID := 4
  const DESCRIPTOR_ID := 5
  const STREAM_CTRL_ID := 6

  const MAX_PACKET_LEN := 9200

  // ---- words in network byte order

  function Pow256(n: nat): (r: nat)
    ensures r > 0
  {
    if n == 0 then 1 else 256 * Pow256(n - 1)
  }

  function ToBytes(w: nat, n: nat): (b: seq<Byte>)
    ensures |b| == n
  {
    if n == 0 then [] else ToBytes(w / 256, n - 1) + [w % 256]
  }

  function FromBytes(b: seq<Byte>): (w: nat)
    ensures w < Pow256(|b|)
  {
    if b == [] then 0 else FromBytes(b[..|b| - 1]) * 256 + b[|b| - 1]
  }

  lemma {:induction false} BytesRoundTrip(w: nat, n: nat)
    requires w < Pow256(n)
    ensures FromBytes(ToBytes(w, n)) == w
  {
    if n > 0 {
      BytesRoundTrip(w / 256, n - 1);
      var b := ToBytes(w, n);
      assert b[..n - 1] == ToBytes(w / 256, n - 1);
    }
  }

  /** Byte i of the network form. */
  lemma {:induction false} ByteOfWord(w: nat, n: nat, i: nat)
    requires i < n
    ensures ToBytes(w, n)[i] == w / Pow256(n - 1 - i) % 256
  {
    if i < n - 1 {
      ByteOfWord(w / 256, n - 1, i);
      DivTwice(w, Pow256(n - 2 - i));
    }
  }

  lemma DivTwice(w: nat, d: nat)
    requires d > 0
    ensures w / 256 / d == w / (256 * d)
  {
    Bits.DivDiv(w, 256, d);
  }

  /** Reading and writing back changes nothing: every byte string is the big-endian form of its value. */
  lemma {:induction false} BytesOfValue(b: seq<Byte>)
    ensures ToBytes(FromBytes(b), |b|) == b
  {
    if b != [] { BytesOfValue(b[..|b| - 1]); }
  }

  lemma WordLimit()
    ensures Pow256(8) == WORD_LIMIT
  {
    assert Pow256(2) == 0x1_0000;
    assert Pow256(4) == 0x1_0000_0000;
    assert Pow256(6) == 0x1_0000_0000_0000;
  }

  // ---- the packet buffer

  /** The n-th 64-bit word of the buffer. */
  function Word(data: seq<Byte>, n: nat): (w: nat)
    requires 8 * n + 8 <= |data|
  {
    FromBytes(data[8 * n..8 * n + 8])
  }

  function Splice(data: seq<Byte>, at: nat, src: seq<Byte>): (r: seq<Byte>)
    requires at + |src| <= |data|
    ensures |r| == |data|
  {
    data[..at] + src + data[at + |src|..]
  }

  function SetWord(data: seq<Byte>, n: nat, w: nat): (r: seq<Byte>)
    requires 8 * n + 8 <= |data|
    ensures |r| == |data|
  {
    Splice(data, 8 * n, ToBytes(w, 8))
  }

  lemma SpliceReads(data: seq<Byte>, at: nat, src: seq<Byte>, lo: nat, hi: nat)
    requires at + |src| <= |data| && lo <= hi <= |data|
    ensures lo == at && hi == at + |src| ==> Splice(data, at, src)[lo..hi] == src
    ensures hi <= at || at + |src| <= lo ==> Splice(data, at, src)[lo..hi] == data[lo..hi]
  {
    var r := Splice(data, at, src);
    forall i | 0 <= i < |data| ensures r[i] == if i < at || i >= at + |src| then data[i] else src[i - at] {
      SpliceAt(data, at, src, i);
    }
    hide Splice;
    if lo == at && hi == at + |src| { assert r[lo..hi] == src; }
    if hi <= at || at + |src| <= lo { assert r[lo..hi] == data[lo..hi]; }
  }

  lemma SpliceAt(data: seq<Byte>, at: nat, src: seq<Byte>, i: nat)
    requires at + |src| <= |data| && i < |data|
    ensures Splice(data, at, src)[i] == if i < at || i >= at + |src| then data[i] else src[i - at]
  {}

  /** A word reads back as written; the other words stay. */
  lemma SetWordReads(data: seq<Byte>, n: nat, w: nat, m: nat)
    requires 8 * n + 8 <= |data| && 8 * m + 8 <= |data| && w < WORD_LIMIT
    ensures Word(SetWord(data, n, w), m) == if m == n then w else Word(data, m)
  {
    SpliceReads(data, 8 * n, ToBytes(w, 8), 8 * m, 8 * m + 8);
    WordLimit();
    BytesRoundTrip(w, 8);
  }

  // ---- header and item pointers

  datatype Pointer = Pointer(mode: nat, id: nat, addr: nat)

  predicate Encodable(p: Pointer) {
    p.mode < 2 && p.id < ID_LIMIT && p.addr < ADDR_LIMIT
  }

  function ItemBuild(p: Pointer): (w: nat)
    ensures w < WORD_LIMIT
  {
    p.mode % 2 * MODE_UNIT + p.id % ID_LIMIT * ADDR_LIMIT + p.addr % ADDR_LIMIT
  }

  function ItemMode(w: nat): nat { w / MODE_UNIT % 2 }

  function ItemId(w: nat): nat { w / ADDR_LIMIT % ID_LIMIT }

  function ItemAddr(w: nat): nat { w % ADDR_LIMIT }

  function ItemPointer(w: nat): (p: Pointer)
    ensures Encodable(p)
  {
    Pointer(ItemMode(w), ItemId(w), ItemAddr(w))
  }

  /** Packing and unpacking are inverse, in both directions. */
  lemma PointerRoundTrip(p: Pointer)
    requires Encodable(p)
    ensures ItemPointer(ItemBuild(p)) == p
  {
    var w := ItemBuild(p);
    assert w == p.mode * MODE_UNIT + p.id * ADDR_LIMIT + p.addr;
    assert w / MODE_UNIT == p.mode;
    assert w / ADDR_LIMIT == p.mode * ID_LIMIT + p.id;
  }

  lemma WordRoundTrip(w: nat)
    requires w < WORD_LIMIT
    ensures ItemBuild(ItemPointer(w)) == w
  {
    assert w / MODE_UNIT < 2;
    assert w / ADDR_LIMIT / ID_LIMIT == w / MODE_UNIT;
  }

  function HeaderBuild(nitems: nat): (w: nat)
    ensures w < WORD_LIMIT
  {
    0x53_04_03_05_0000_0000 + nitems % 0x1_0000
  }

  /** Magic, version, item pointer width and address width are those of the protocol. */
  predicate HeaderOk(w: nat) {
    && w / 0x100_0000_0000_0000 % 256 == 0x53
    && w / 0x1_0000_0000_0000 % 256 == 4
    && w / 0x100_0000_0000 % 256 == 3
    && w / 0x1_0000_0000 % 256 == 5
  }

  function HeaderItems(w: nat): nat { w % 0x1_0000 }

  lemma HeaderRoundTrip(nitems: nat)
    requires nitems < 0x1_0000
    ensures HeaderOk(HeaderBuild(nitems)) && HeaderItems(HeaderBuild(nitems)) == nitems
  {
    var w := HeaderBuild(nitems);
    assert w == 0x5304_0305 * 0x1_0000_0000 + nitems;
    assert w / 0x1_0000_0000 == 0x5304_0305;
    assert w / 0x100_0000_0000 == 0x53_0403;
    assert w / 0x1_0000_0000_0000 == 0x5304;
    assert w / 0x100_0000_0000_0000 == 0x53;
  }

  /** No other words are accepted than those with these upper four bytes. */
  lemma HeaderExactly(w: nat)
    requires w < WORD_LIMIT
    ensures HeaderOk(w) <==> w / 0x1_0000_0000 == 0x5304_0305
  {
    var h := w / 0x1_0000_0000;
    Bits.DivDiv(w, 0x1_0000_0000, 0x100);
    Bits.DivDiv(w, 0x1_0000_0000, 0x1_0000);
    Bits.DivDiv(w, 0x1_0000_0000, 0x100_0000);
    FourBytes(h);
  }

  lemma FourBytes(h: nat)
    requires h < 0x1_0000_0000
    ensures h / 0x100_0000 % 256 == 0x53 && h / 0x1_0000 % 256 == 4 && h / 0x100 % 256 == 3 && h % 256 == 5
      <==> h == 0x5304_0305
  {
    var a, b := h / 0x100, h / 0x1_0000;
    assert h == 0x100 * a + h % 256;
    Bits.DivDiv(h, 0x100, 0x100);
    assert a == 0x100 * b + a % 256;
    Bits.DivDiv(h, 0x1_0000, 0x100);
    assert b == 0x100 * (h / 0x100_0000) + b % 256;
  }
}
