/**
What several modules need of sequences: no element twice, two positions of one rearrangement found in another, and the
reversed sequence.
 */
module Sequences {

  datatype Option<T> = None | Some(value: T)

  predicate Distinct<T(==)>(s: seq<T>) {
    forall i, j :: 0 <= i < j < |s| ==> s[i] != s[j]
  }

  lemma DistinctCons<T>(x: T, s: seq<T>)
    ensures Distinct([x] + s) <==> x !in s && Distinct(s)
    ensures forall y :: y in [x] + s <==> y == x || y in s
  {
    var t := [x] + s;
    if Distinct(t) {
      assert forall i :: 0 <= i < |s| ==> t[i + 1] == s[i] && t[0] != t[i + 1];
    }
  }

  /** The elements at two positions are in the sequence together. */
  lemma TwoPositions<T>(s: seq<T>, i: nat, j: nat)
    requires i < |s| && j < |s| && i != j
    ensures multiset{s[i], s[j]} <= multiset(s)
  {
    if i < j { LaterPosition(s, i, j); } else { LaterPosition(s, j, i); }
    assert multiset{s[i], s[j]} == multiset{s[j], s[i]};
  }

  lemma LaterPosition<T>(s: seq<T>, i: nat, j: nat)
    requires i < j < |s|
    ensures multiset{s[i], s[j]} <= multiset(s)
  {
    var a, b := s[..j], s[j..];
    assert s == a + b;
    assert a[i] == s[i] && multiset{a[i]} <= multiset(a);
    assert b[0] == s[j] && multiset{b[0]} <= multiset(b);
  }

  /** Two elements that are in the sequence together stand at two positions. */
  lemma FindTwo<T>(s: seq<T>, x: T, y: T) returns (k: nat, l: nat)
    requires multiset{x, y} <= multiset(s)
    ensures k < |s| && l < |s| && k != l && s[k] == x && s[l] == y
  {
    assert x in multiset(s);
    k :| 0 <= k < |s| && s[k] == x;
    l := FindOther(s, k, y);
  }

  lemma FindOther<T>(s: seq<T>, k: nat, y: T) returns (l: nat)
    requires k < |s| && multiset{s[k], y} <= multiset(s)
    ensures l < |s| && k != l && s[l] == y
  {
    var a, b := s[..k], s[k + 1..];
    assert s == a + [s[k]] + b;
    assert y in multiset(a) + multiset(b);
    if y in multiset(a) {
      l :| 0 <= l < |a| && a[l] == y;
    } else {
      assert y in multiset(b);
      var l' :| 0 <= l' < |b| && b[l'] == y;
      l := k + 1 + l';
    }
  }

  // ---- reversal

  function Reversed<T>(s: seq<T>): (r: seq<T>)
    ensures |r| == |s|
  {
    if s == [] then [] else [s[|s| - 1]] + Reversed(s[..|s| - 1])
  }

  lemma ReversedAppend<T>(s: seq<T>, x: T)
    ensures Reversed(s + [x]) == [x] + Reversed(s)
  {
    assert (s + [x])[..|s|] == s;
  }

  lemma {:induction false} ReversedConcat<T>(a: seq<T>, b: seq<T>)
    ensures Reversed(a + b) == Reversed(b) + Reversed(a)
  {
    hide Reversed;
    if b == [] {
      assert a + b == a;
      ReversedEmpty<T>();
    } else {
      var t, x := b[..|b| - 1], b[|b| - 1];
      ReversedConcat(a, t);
      ReversedAppend(t, x);
      ReversedAppend(a + t, x);
      assert t + [x] == b && (a + t) + [x] == a + b;
    }
  }

  lemma ReversedEmpty<T>()
    ensures Reversed<T>([]) == []
  {}

  lemma ReversedFront<T>(x: T, s: seq<T>)
    ensures Reversed([x] + s) == Reversed(s) + [x]
  {
    ReversedConcat([x], s);
    assert Reversed([x]) == [x];
  }

  lemma ReversedDrop<T>(s: seq<T>, k: nat)
    requires k < |s|
    ensures Reversed(s[k..]) == Reversed(s[k + 1..]) + [s[k]]
  {
    assert s[k..] == [s[k]] + s[k + 1..];
    ReversedFront(s[k], s[k + 1..]);
  }

  lemma {:induction false} ReversedAt<T>(s: seq<T>, k: nat)
    requires k < |s|
    ensures Reversed(s)[k] == s[|s| - 1 - k]
  {
    if k > 0 { ReversedAt(s[..|s| - 1], k - 1); }
  }

  lemma IsReversed<T>(s: seq<T>, r: seq<T>)
    requires |r| == |s| && forall k :: 0 <= k < |s| ==> r[k] == s[|s| - 1 - k]
    ensures r == Reversed(s)
  {
    hide Reversed;
    forall k | 0 <= k < |s| ensures r[k] == Reversed(s)[k] { ReversedAt(s, k); }
  }

  lemma ReversedTwice<T>(s: seq<T>)
    ensures Reversed(Reversed(s)) == s
  {
    hide Reversed;
    forall k | 0 <= k < |s| ensures Reversed(Reversed(s))[k] == s[k] {
      ReversedAt(Reversed(s), k);
      ReversedAt(s, |s| - 1 - k);
    }
  }

  lemma {:induction false} ReversedSame<T>(s: seq<T>)
    ensures multiset(Reversed(s)) == multiset(s)
  {
    if s == [] {
      ReversedEmpty<T>();
    } else {
      hide Reversed;
      var t, x := s[..|s| - 1], s[|s| - 1];
      assert s == t + [x];
      ReversedSame(t);
      ReversedAppend(t, x);
    }
  }

  lemma ReversedMembers<T>(s: seq<T>, x: T)
    ensures x in Reversed(s) <==> x in s
  {
    hide Reversed;
    ReversedSame(s);
    assert x in multiset(Reversed(s)) <==> x in multiset(s);
  }
}
