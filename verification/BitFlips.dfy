/**
The table of bit-reversal swaps: how it is filled, that its closed-form size is exactly right, and that carrying the
swaps out in any order reverses the index bits.
 */
module BitFlips {
  import opened Bits
  import opened PairRounds

  /** The swaps (i, rev i) with i < rev i, for i below n, in the order the setup loop finds them. */
  ghost function FlipsBelow(p: nat, n: nat): seq<Pair> {
    if n == 0 then []
    else
      var i := n - 1;
      FlipsBelow(p, i) + if i < Rev(p, i) then [Pair(i, Rev(p, i))] else []
  }

  /** The size computed on the host for a transform of 2 to the p points. */
  function FlipCount(p: nat): int
    requires p >= 1
  {
    Pow2(p) / 2 - Pow2(if p % 2 == 1 then (p + 1) / 2 - 1 else p / 2 - 1)
  }

  lemma {:induction false} FlipsBelowGrow(p: nat, m: nat, n: nat)
    requires m <= n
    ensures |FlipsBelow(p, m)| <= |FlipsBelow(p, n)|
    ensures FlipsBelow(p, m) <= FlipsBelow(p, n)
  {
    if m < n { FlipsBelowGrow(p, m, n - 1); }
  }

  // ---- how many swaps there are

  lemma FlipsStep(p: nat, n: nat)
    ensures |FlipsBelow(p, n + 1)| == |FlipsBelow(p, n)| + if n < Rev(p, n) then 1 else 0
    ensures |FlipsBelow(p, 0)| == 0
  {}

  lemma LowerHalfStep(p: nat, k: nat)
    requires p >= 2 && k < Pow2(p - 2)
    ensures |FlipsBelow(p, 2 * k + 2)| == |FlipsBelow(p, 2 * k)| + (if k < Rev(p - 2, k) then 1 else 0) + 1
  {
    hide FlipsBelow, Rev;
    RevFromLowBit(p, k);
    RevClearTopBit(p - 1, k);
    FlipsStep(p, 2 * k);
    FlipsStep(p, 2 * k + 1);
    assert 2 * k + 1 < Pow2(p - 1);
  }

  /** In the lower half every index with low bit 1 swaps, and one with low bit 0 swaps when its middle bits do. */
  lemma {:induction false} LowerHalfCount(p: nat, j: nat)
    requires p >= 2 && j <= Pow2(p - 2)
    ensures |FlipsBelow(p, 2 * j)| == |FlipsBelow(p - 2, j)| + j
  {
    hide FlipsBelow, Rev, Pow2;
    FlipsStep(p, 0);
    FlipsStep(p - 2, 0);
    if j > 0 {
      LowerHalfCount(p, j - 1);
      LowerHalfStep(p, j - 1);
      FlipsStep(p - 2, j - 1);
    }
  }

  lemma UpperHalfStep(p: nat, k: nat)
    requires p >= 2 && k < Pow2(p - 2)
    ensures |FlipsBelow(p, Pow2(p - 1) + 2 * k + 2)|
         == |FlipsBelow(p, Pow2(p - 1) + 2 * k)| + if k < Rev(p - 2, k) then 1 else 0
  {
    hide FlipsBelow, Rev;
    var i := Pow2(p - 1) + 2 * k;
    assert i == 2 * (Pow2(p - 2) + k);
    RevFromLowBit(p, Pow2(p - 2) + k);
    RevSetTopBit(p - 1, k);
    FlipsStep(p, i);
    FlipsStep(p, i + 1);
  }

  /** In the upper half only indices with low bit 1 can swap, when their middle bits do. */
  lemma {:induction false} UpperHalfCount(p: nat, j: nat)
    requires p >= 2 && j <= Pow2(p - 2)
    ensures |FlipsBelow(p, Pow2(p - 1) + 2 * j)| == |FlipsBelow(p, Pow2(p - 1))| + |FlipsBelow(p - 2, j)|
  {
    hide FlipsBelow, Rev, Pow2;
    FlipsStep(p - 2, 0);
    if j > 0 {
      UpperHalfCount(p, j - 1);
      UpperHalfStep(p, j - 1);
      FlipsStep(p - 2, j - 1);
    }
  }

  lemma SmallFlips()
    ensures FlipsBelow(0, 1) == [] && FlipsBelow(1, 2) == []
  {
    assert Rev(0, 0) == 0 && Rev(1, 0) == 0 && Rev(1, 1) == 1 by {
      RevFromLowBit(1, 0);
    }
    assert FlipsBelow(0, 0) == [] && FlipsBelow(1, 0) == [] && FlipsBelow(1, 1) == [];
  }

  lemma FlipCountStep(p: nat)
    requires p >= 3
    ensures FlipCount(p) == 2 * FlipCount(p - 2) + Pow2(p - 2)
  {
    var e := if p % 2 == 1 then (p + 1) / 2 - 1 else p / 2 - 1;
    FlipCountAt(p, e);
    FlipCountAt(p - 2, e - 1);
  }

  lemma FlipCountAt(p: nat, e: nat)
    requires p >= 1 && e == if p % 2 == 1 then (p + 1) / 2 - 1 else p / 2 - 1
    ensures FlipCount(p) == Pow2(p - 1) - Pow2(e)
  {
    HalfOfPow2(p);
  }

  /** All p bits: two halves of the table, each again half without swaps of its own. */
  lemma FlipsHalves(p: nat)
    requires p >= 2
    ensures |FlipsBelow(p, Pow2(p))| == 2 * |FlipsBelow(p - 2, Pow2(p - 2))| + Pow2(p - 2)
  {
    hide FlipsBelow;
    var q, k := |FlipsBelow(p - 2, Pow2(p - 2))|, Pow2(p - 2);
    LowerHalfCount(p, k);
    UpperHalfCount(p, k);
    assert Pow2(p - 1) == 2 * k && Pow2(p) == Pow2(p - 1) + 2 * k;
  }

  lemma SmallFlipCounts()
    ensures FlipCount(1) == 0 && FlipCount(2) == 1
  {
    FlipCountAt(1, 0);
    FlipCountAt(2, 0);
  }

  /** The closed form is exact for every number of passes. */
  lemma {:induction false} FlipCountExact(p: nat)
    requires p >= 1
    ensures |FlipsBelow(p, Pow2(p))| == FlipCount(p)
  {
    hide FlipsBelow, FlipCount;
    SmallFlips();
    SmallFlipCounts();
    if p >= 2 {
      FlipsHalves(p);
      if p >= 3 {
        FlipCountExact(p - 2);
        FlipCountStep(p);
      }
    }
  }

  // ---- the table is a set of disjoint pairs that covers exactly the moving indices

  lemma {:induction false} FlipsAreReversals(p: nat, n: nat, t: nat)
    requires t < |FlipsBelow(p, n)|
    ensures var f := FlipsBelow(p, n)[t]; f.a < n && f.b == Rev(p, f.a) && f.a < f.b
  {
    if t < |FlipsBelow(p, n - 1)| { FlipsAreReversals(p, n - 1, t); }
  }

  lemma {:induction false} FlipsAscend(p: nat, n: nat, t: nat, u: nat)
    requires t < u < |FlipsBelow(p, n)|
    ensures FlipsBelow(p, n)[t].a < FlipsBelow(p, n)[u].a
  {
    if u < |FlipsBelow(p, n - 1)| { FlipsAscend(p, n - 1, t, u); } else { FlipsAreReversals(p, n - 1, t); }
  }

  lemma {:induction false} FlipsComplete(p: nat, n: nat, i: nat) returns (t: nat)
    requires i < n && i < Rev(p, i)
    ensures t < |FlipsBelow(p, n)| && FlipsBelow(p, n)[t] == Pair(i, Rev(p, i))
  {
    if i < n - 1 { t := FlipsComplete(p, n - 1, i); } else { t := |FlipsBelow(p, n - 1)|; }
  }

  lemma FlipsDisjoint(p: nat)
    ensures Disjoint(FlipsBelow(p, Pow2(p)), Pow2(p))
  {
    hide FlipsBelow, Rev;
    var n := Pow2(p);
    var fs := FlipsBelow(p, n);
    forall t | 0 <= t < |fs| ensures fs[t].a < n && fs[t].b < n && fs[t].a != fs[t].b {
      FlipsAreReversals(p, n, t);
    }
    forall t, u | 0 <= t < |fs| && 0 <= u < |fs| && t != u
      ensures fs[t].a != fs[u].a && fs[t].a != fs[u].b && fs[t].b != fs[u].b
    {
      FlipsAreReversals(p, n, t);
      FlipsAreReversals(p, n, u);
      if t < u { FlipsAscend(p, n, t, u); } else { FlipsAscend(p, n, u, t); }
      RevInvolution(p, fs[t].a);
      RevInvolution(p, fs[u].a);
    }
  }

  function Swap<T>(t: nat, va: T, vb: T): (T, T) { (vb, va) }

  /** Any result of carrying out the swaps, in whatever order or interleaving, is the bit-reversal permutation. */
  lemma FlipsReverse<T>(p: nat, x: seq<T>, y: seq<T>)
    requires |x| == Pow2(p)
    requires Disjoint(FlipsBelow(p, Pow2(p)), |x|) && Result(FlipsBelow(p, Pow2(p)), Swap, x, y)
    ensures forall i :: 0 <= i < |x| ==> y[i] == x[Rev(p, i)]
  {
    hide FlipsBelow, Rev;
    var n := Pow2(p);
    var fs := FlipsBelow(p, n);
    forall i | 0 <= i < n ensures y[i] == x[Rev(p, i)] {
      RevInvolution(p, i);
      if i < Rev(p, i) {
        var t := FlipsComplete(p, n, i);
        assert (y[fs[t].a], y[fs[t].b]) == Swap(t, x[fs[t].a], x[fs[t].b]);
      } else if Rev(p, i) < i {
        var t := FlipsComplete(p, n, Rev(p, i));
        assert (y[fs[t].a], y[fs[t].b]) == Swap(t, x[fs[t].a], x[fs[t].b]);
      } else if Touched(fs, i) {
        var t :| 0 <= t < |fs| && (fs[t].a == i || fs[t].b == i);
        FlipsAreReversals(p, n, t);
        RevInvolution(p, fs[t].a);
      }
    }
  }

  // ---- the setup and swap kernels

  /** The inner loop of the setup kernel. */
  method ReverseBits(i: nat, passes: nat) returns (rev: nat)
    ensures rev == Rev(passes, i)
  {
    var r := i;
    rev := 0;
    var count := 0;
    while count < passes
      invariant count <= passes
      invariant rev == Rev(count, i)
      invariant r == i / Pow2(count)
    {
      RevNextBit(count, i);
      DivByPow2(i, count + 1);
      count := count + 1;
      rev := 2 * rev + r % 2;
      r := r / 2;
    }
  }

  /** Fills the table. The loop may run past N only while entries are missing; the exact size rules that out. */
  method BitFlipSetup(flip: array<Pair>, N: nat, passes: nat)
    requires passes >= 1 && N == Pow2(passes) && flip.Length == FlipCount(passes)
    modifies flip
    ensures flip[..] == FlipsBelow(passes, N)
  {
    hide Rev, FlipCount;
    var flips := flip.Length;
    var have, i := 0, 0;
    FlipCountExact(passes);
    while i < N || have < flips
      invariant i <= N && have <= flips
      invariant flip[..have] == FlipsBelow(passes, i)
      decreases N - i
    {
      FlipsBelowGrow(passes, i + 1, N);
      var rev := ReverseBits(i, passes);
      if i < rev {
        flip[have] := Pair(i, rev);
        have := have + 1;
      }
      if have == flips { break; }
      i := i + 1;
    }
    if i < N { FlipsBelowGrow(passes, i + 1, N); }
  }

  /** Every work item below the table size swaps the two cells of its entry. */
  method BitFlip<T>(flip: array<Pair>, a: array<T>, ghost p: nat)
    requires a.Length == Pow2(p) && flip[..] == FlipsBelow(p, Pow2(p))
    requires flip as object != a as object
    modifies a
    ensures forall i :: 0 <= i < a.Length ==> a[i] == old(a[..])[Rev(p, i)]
  {
    ghost var ps, x := flip[..], a[..];
    FlipsDisjoint(p);
    assert ps[..0] == [];
    for t := 0 to flip.Length
      invariant flip[..] == ps
      invariant Disjoint(ps[..t], |x|) && Result(ps[..t], Swap, x, a[..])
    {
      hide Disjoint, Result;
      ResultExtend(ps, t, Swap, x, a[..]);
      ghost var before := a[..];
      FlipsAreReversals(p, Pow2(p), t);
      var f := flip[t];
      var temp := a[f.a];
      a[f.a] := a[f.b];
      a[f.b] := temp;
      assert a[..] == before[f.a := x[f.b]][f.b := x[f.a]];
    }
    assert ps[..flip.Length] == ps;
    FlipsReverse(p, x, a[..]);
  }
}
