/**
What a complete heap means: item pointers in traversal order over the concatenated payloads. Lengths are not on the
wire; the receiver recovers them from the back, where each direct item ends at the next direct item or at the end of
the heap.
 */
module Reassembly {
  import opened Sequences
  import opened SpeadLayout
  import opened HeapStore
  import opened Fragments

  /** An item as handed to the application: its id, its address mode and its bytes. */
  datatype ApiItem = ApiItem(id: nat, mode: nat, data: seq<Byte>)

  // ---- the meaning of a pointer list

  /** Where the first direct item from index k on starts, or the end of the heap. */
  function NextDirect(ps: seq<Pointer>, k: nat, end: nat): nat
    decreases |ps| - k
  {
    if k >= |ps| then end else if ps[k].mode == DIRECT then ps[k].addr else NextDirect(ps, k + 1, end)
  }

  /** Direct items start at offset 0 and follow one another inside the heap. */
  ghost predicate Orderly(ps: seq<Pointer>, end: nat) {
    && (forall i, j :: 0 <= i < j < |ps| && ps[i].mode == DIRECT && ps[j].mode == DIRECT ==> ps[i].addr <= ps[j].addr)
    && (forall i :: 0 <= i < |ps| && ps[i].mode == DIRECT ==> ps[i].addr <= end)
    && NextDirect(ps, 0, 0) == 0
  }

  /** An immediate value in the byte order of a little-endian host. */
  function HostBytes(v: nat): (b: seq<Byte>)
    ensures |b| == 8
  {
    Reversed(ToBytes(v, 8))
  }

  /** b is v in eight bytes, the least significant first. */
  ghost predicate HostForm(b: seq<Byte>, v: nat) {
    |b| == 8 && forall i :: 0 <= i < 8 ==> b[i] == v / Pow256(i) % 256
  }

  lemma HostBytesForm(v: nat)
    ensures HostForm(HostBytes(v), v)
  {
    forall i | 0 <= i < 8 ensures HostBytes(v)[i] == v / Pow256(i) % 256 {
      ReversedAt(ToBytes(v, 8), i);
      ByteOfWord(v, 8, 7 - i);
    }
  }

  /** The bytes of item k. */
  function Extract(ps: seq<Pointer>, k: nat, flat: seq<Byte>): seq<Byte>
    requires k < |ps|
  {
    if ps[k].mode != DIRECT then HostBytes(ps[k].addr)
    else if ps[k].addr <= NextDirect(ps, k + 1, |flat|) <= |flat| then flat[ps[k].addr..NextDirect(ps, k + 1, |flat|)]
    else []
  }

  /** The first k items, the empty ones dropped. */
  function Outputs(ps: seq<Pointer>, k: nat, flat: seq<Byte>): seq<ApiItem>
    requires k <= |ps|
  {
    if k == 0 then []
    else
      var data := Extract(ps, k - 1, flat);
      Outputs(ps, k - 1, flat) + if data == [] then [] else [ApiItem(ps[k - 1].id, ps[k - 1].mode, data)]
  }

  /** Whether one of the first k items is a non-empty descriptor. */
  predicate HasDescriptor(ps: seq<Pointer>, k: nat, flat: seq<Byte>)
    requires k <= |ps|
  {
    k > 0 && (HasDescriptor(ps, k - 1, flat) || (ps[k - 1].id == DESCRIPTOR_ID && Extract(ps, k - 1, flat) != []))
  }

  // ---- lengths from the back

  /** The lengths the receiver computes by walking the pointers backwards, end being the offset it has come down to. */
  function Lengths(ps: seq<Pointer>, end: int): (ls: seq<int>)
    ensures |ls| == |ps|
  {
    if ps == [] then []
    else
      var p, init := ps[|ps| - 1], ps[..|ps| - 1];
      if p.mode != DIRECT then Lengths(init, end) + [8]
      else if end > 0 then Lengths(init, p.addr) + [end - p.addr]
      else Lengths(init, end) + [0]
  }

  /** Dropping pointers from the back moves the end to the first of them that is direct. */
  lemma {:induction false} NextDirectBound(ps: seq<Pointer>, k: nat, end: nat)
    requires Orderly(ps, end)
    ensures NextDirect(ps, k, end) <= end
    ensures forall i :: 0 <= i < k && i < |ps| && ps[i].mode == DIRECT ==> ps[i].addr <= NextDirect(ps, k, end)
    decreases |ps| - k
  {
    if k < |ps| && ps[k].mode != DIRECT { NextDirectBound(ps, k + 1, end); }
  }

  /** Walking backwards gives every direct item the distance to the next one. */
  lemma {:induction false} LengthsAt(ps: seq<Pointer>, end: nat, m: nat, k: nat)
    requires Orderly(ps, end) && k < m <= |ps|
    ensures Lengths(ps[..m], NextDirect(ps, m, end))[k]
         == if ps[k].mode != DIRECT then 8 else NextDirect(ps, k + 1, end) - ps[k].addr
  {
    var init := ps[..m][..m - 1];
    assert init == ps[..m - 1];
    NextDirectBound(ps, m, end);
    if k < m - 1 { LengthsAt(ps, end, m - 1, k); }
  }

  function Sum(ls: seq<int>): int {
    if ls == [] then 0 else Sum(ls[..|ls| - 1]) + ls[|ls| - 1]
  }

  /** The number of immediate pointers. */
  function Immediates(ps: seq<Pointer>): nat {
    if ps == [] then 0 else Immediates(ps[..|ps| - 1]) + if ps[|ps| - 1].mode != DIRECT then 1 else 0
  }

  /** The computed lengths tile the heap: the direct ones add up to it, each immediate one adds a word. */
  lemma {:induction false} LengthsTile(ps: seq<Pointer>, end: nat, m: nat)
    requires Orderly(ps, end) && m <= |ps|
    ensures Sum(Lengths(ps[..m], NextDirect(ps, m, end)))
         == 8 * Immediates(ps[..m]) + NextDirect(ps, m, end) - NextDirect(ps, 0, end)
    ensures forall k :: 0 <= k < m ==> Lengths(ps[..m], NextDirect(ps, m, end))[k] >= 0
  {
    if m > 0 {
      LengthsTile(ps, end, m - 1);
      NextDirectBound(ps, m, end);
      var front, ls := ps[..m], Lengths(ps[..m], NextDirect(ps, m, end));
      assert front[..m - 1] == ps[..m - 1];
      assert ls[..m - 1] == Lengths(ps[..m - 1], NextDirect(ps, m - 1, end));
    }
  }

  /** Where the copying stands before item t: at the end of the last direct item. */
  function CopiedTo(ps: seq<Pointer>, t: nat, end: nat): nat
    requires t <= |ps|
  {
    if t == 0 then 0 else if ps[t - 1].mode == DIRECT then NextDirect(ps, t, end) else CopiedTo(ps, t - 1, end)
  }

  lemma {:induction false} CopiedToIs(ps: seq<Pointer>, t: nat, end: nat)
    requires t <= |ps|
    ensures if forall i :: 0 <= i < t ==> ps[i].mode != DIRECT
            then CopiedTo(ps, t, end) == 0 && NextDirect(ps, 0, 0) == NextDirect(ps, t, 0)
            else CopiedTo(ps, t, end) == NextDirect(ps, t, end)
  {
    if t > 0 { CopiedToIs(ps, t - 1, end); }
  }

  /** A direct item starts where the copying stands, and the copying then stands at its end. */
  lemma ItemStartsThere(ps: seq<Pointer>, t: nat, flat: seq<Byte>)
    requires Orderly(ps, |flat|) && t < |ps|
    ensures CopiedTo(ps, t, |flat|) <= |flat|
    ensures var at, len := CopiedTo(ps, t, |flat|), Lengths(ps, |flat|)[t];
            && 0 <= len && (ps[t].mode != DIRECT ==> len == 8 && CopiedTo(ps, t + 1, |flat|) == at)
            && (ps[t].mode == DIRECT ==> && at + len <= |flat| && flat[at..at + len] == Extract(ps, t, flat)
                                         && CopiedTo(ps, t + 1, |flat|) == at + len)
            && (len == 0 <==> Extract(ps, t, flat) == [])
  {
    hide Lengths;
    CopiedToIs(ps, t, |flat|);
    NextDirectBound(ps, t, |flat|);
    NextDirectBound(ps, t + 1, |flat|);
    assert ps[..|ps|] == ps;
    LengthsAt(ps, |flat|, |ps|, t);
    assert NextDirect(ps, |ps|, |flat|) == |flat|;
    hide Orderly;
  }

  lemma {:induction false} SumPrefix(ls: seq<int>, t: nat)
    requires t <= |ls| && forall k :: 0 <= k < |ls| ==> ls[k] >= 0
    ensures 0 <= Sum(ls[..t]) <= Sum(ls)
  {
    if ls != [] {
      var n := |ls| - 1;
      if t == |ls| {
        assert ls[..t] == ls;
        SumPrefix(ls[..n], n);
      } else {
        assert ls[..n][..t] == ls[..t];
        SumPrefix(ls[..n], t);
      }
    }
  }

  /** The items fit an arena with room for the heap, a word per immediate item and a header per item. */
  lemma ArenaSuffices(ps: seq<Pointer>, end: nat, t: nat)
    requires Orderly(ps, end) && t < |ps|
    ensures Sum(Lengths(ps, end)[..t]) + Lengths(ps, end)[t] == Sum(Lengths(ps, end)[..t + 1])
    ensures Sum(Lengths(ps, end)[..t + 1]) <= end + 8 * Immediates(ps)
    ensures Lengths(ps, end)[t] >= 0
  {
    var ls := Lengths(ps, end);
    assert ps[..|ps|] == ps && NextDirect(ps, |ps|, end) == end;
    LengthsTile(ps, end, |ps|);
    SumPrefix(ls, t + 1);
    assert ls[..t + 1][..t] == ls[..t];
  }

  // ---- what the items say

  /** e is where the direct item of pointer k ends: at the next direct pointer, or at the end of the heap. */
  ghost predicate EndsAt(ps: seq<Pointer>, k: nat, end: nat, e: nat) {
    || (e == end && forall i :: k < i < |ps| ==> ps[i].mode != DIRECT)
    || (exists m :: k < m < |ps| && ps[m].mode == DIRECT && e == ps[m].addr
                    && forall i :: k < i < m ==> ps[i].mode != DIRECT)
  }

  /** The bytes that pointer k means: its own value, or a stretch of the heap. */
  ghost predicate Means(ps: seq<Pointer>, k: nat, flat: seq<Byte>, data: seq<Byte>)
    requires k < |ps|
  {
    if ps[k].mode != DIRECT then HostForm(data, ps[k].addr)
    else exists e :: ps[k].addr <= e <= |flat| && EndsAt(ps, k, |flat|, e) && data == flat[ps[k].addr..e]
  }

  /** The items are those of the pointers at the given places, in order; the first n pointers left out mean no bytes. */
  ghost predicate ConveysAt(items: seq<ApiItem>, places: seq<nat>, ps: seq<Pointer>, n: nat, flat: seq<Byte>)
    requires n <= |ps|
  {
    && |places| == |items|
    && (forall j :: 0 <= j < |places| ==> places[j] < n)
    && (forall i, j :: 0 <= i < j < |places| ==> places[i] < places[j])
    && (forall j :: 0 <= j < |items| ==>
          && items[j].id == ps[places[j]].id && items[j].mode == ps[places[j]].mode
          && items[j].data != [] && Means(ps, places[j], flat, items[j].data))
    && (forall k :: 0 <= k < n && k !in places ==> Means(ps, k, flat, []))
  }

  /** The items of a heap with these pointers and bytes: one for each pointer that means any bytes, in order. */
  ghost predicate Conveys(items: seq<ApiItem>, ps: seq<Pointer>, flat: seq<Byte>) {
    exists places :: ConveysAt(items, places, ps, |ps|, flat)
  }

  lemma {:induction false} NextDirectEnds(ps: seq<Pointer>, k: nat, j: nat, end: nat)
    requires k < j <= |ps| && forall i :: k < i < j ==> ps[i].mode != DIRECT
    ensures EndsAt(ps, k, end, NextDirect(ps, j, end))
    decreases |ps| - j
  {
    if j < |ps| && ps[j].mode != DIRECT { NextDirectEnds(ps, k, j + 1, end); }
  }

  lemma ExtractMeans(ps: seq<Pointer>, k: nat, flat: seq<Byte>)
    requires Orderly(ps, |flat|) && k < |ps|
    ensures Means(ps, k, flat, Extract(ps, k, flat))
  {
    hide EndsAt, HostForm, HostBytes;
    if ps[k].mode != DIRECT {
      HostBytesForm(ps[k].addr);
    } else {
      NextDirectEnds(ps, k, k + 1, |flat|);
      NextDirectBound(ps, k + 1, |flat|);
    }
  }

  lemma ConveySkip(items: seq<ApiItem>, places: seq<nat>, ps: seq<Pointer>, k: nat, flat: seq<Byte>)
    requires k < |ps| && ConveysAt(items, places, ps, k, flat) && Means(ps, k, flat, [])
    ensures ConveysAt(items, places, ps, k + 1, flat)
  {
    hide Means;
  }

  lemma ConveyPush(items: seq<ApiItem>, places: seq<nat>, ps: seq<Pointer>, k: nat, flat: seq<Byte>, data: seq<Byte>)
    requires k < |ps| && ConveysAt(items, places, ps, k, flat) && data != [] && Means(ps, k, flat, data)
    ensures ConveysAt(items + [ApiItem(ps[k].id, ps[k].mode, data)], places + [k], ps, k + 1, flat)
  {
    hide Means;
    var qs := places + [k];
    assert forall j :: 0 <= j < |places| ==> qs[j] == places[j];
    assert qs[|places|] == k;
    assert forall i :: i !in qs ==> i !in places && i != k;
  }

  lemma {:induction false} OutputsConvey(ps: seq<Pointer>, k: nat, flat: seq<Byte>) returns (places: seq<nat>)
    requires Orderly(ps, |flat|) && k <= |ps|
    ensures ConveysAt(Outputs(ps, k, flat), places, ps, k, flat)
  {
    hide Orderly, Extract, Means, ConveysAt;
    if k == 0 {
      places := [];
      NothingConveyed(ps, flat);
    } else {
      places := OutputsConvey(ps, k - 1, flat);
      var data, items := Extract(ps, k - 1, flat), Outputs(ps, k - 1, flat);
      ExtractMeans(ps, k - 1, flat);
      if data == [] {
        assert Outputs(ps, k, flat) == items;
        ConveySkip(items, places, ps, k - 1, flat);
      } else {
        ConveyPush(items, places, ps, k - 1, flat, data);
        places := places + [k - 1];
      }
    }
  }

  lemma NothingConveyed(ps: seq<Pointer>, flat: seq<Byte>)
    ensures ConveysAt([], [], ps, 0, flat)
  {}

  /** An item with the descriptor's id is among the items. */
  ghost predicate AnyDescriptor(items: seq<ApiItem>) {
    exists j :: 0 <= j < |items| && items[j].id == DESCRIPTOR_ID
  }

  lemma {:induction false} DescriptorAmong(ps: seq<Pointer>, k: nat, flat: seq<Byte>)
    requires k <= |ps|
    ensures HasDescriptor(ps, k, flat) <==> AnyDescriptor(Outputs(ps, k, flat))
  {
    hide Extract;
    if k > 0 {
      DescriptorAmong(ps, k - 1, flat);
      var items, all := Outputs(ps, k - 1, flat), Outputs(ps, k, flat);
      assert all[..|items|] == items;
      assert forall j :: 0 <= j < |items| ==> all[j] == items[j];
      if Extract(ps, k - 1, flat) != [] { assert all[|items|].id == ps[k - 1].id; }
    }
  }

  /** What the receiver's rules give out of an orderly heap is what its pointers mean. */
  lemma OutputsMean(ps: seq<Pointer>, flat: seq<Byte>)
    requires Orderly(ps, |flat|)
    ensures Conveys(Outputs(ps, |ps|, flat), ps, flat)
    ensures HasDescriptor(ps, |ps|, flat) <==> AnyDescriptor(Outputs(ps, |ps|, flat))
  {
    hide Orderly, ConveysAt;
    var places := OutputsConvey(ps, |ps|, flat);
    DescriptorAmong(ps, |ps|, flat);
  }
}
