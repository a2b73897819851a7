/**
The radix-2 transform as the kernels run it: sizing on the host, butterfly passes in place over all work items, then
the bit-reversal swaps, and the theorem that this leaves the discrete Fourier transform of the input.
 */
module Radix2Fft {
  import opened Rings
  import opened Bits
  import opened PairRounds
  import opened Dft
  import opened BitFlips

  // ---- sizing

  /** Bitwise and of natural numbers. */
  function BitAnd(x: nat, y: nat): nat {
    if x == 0 || y == 0 then 0 else 2 * BitAnd(x / 2, y / 2) + if x % 2 == 1 && y % 2 == 1 then 1 else 0
  }

  predicate IsPowerOf2(x: nat) {
    x != 0 && BitAnd(x, x - 1) == 0
  }

  lemma {:induction false} BitAndZero(x: nat)
    ensures BitAnd(x, 0) == 0 && BitAnd(x, x) == x
  {
    if x > 0 { BitAndZero(x / 2); }
  }

  /** The bit trick accepts exactly the powers of two. */
  lemma {:induction false} IsPowerOf2Exact(x: nat, p: nat)
    requires Pow2(p) <= x < Pow2(p + 1)
    ensures IsPowerOf2(x) <==> x == Pow2(p)
  {
    if p == 0 {
      assert x == 1;
    } else {
      IsPowerOf2Exact(x / 2, p - 1);
      if x % 2 == 0 {
        assert (x - 1) / 2 == x / 2 - 1;
      } else {
        assert (x - 1) / 2 == x / 2;
        BitAndZero(x / 2);
      }
    }
  }

  /** The number of halvings that bring x down to 1. */
  method PowerOf2(x: nat) returns (p: nat)
    requires x > 0
    ensures Pow2(p) <= x < Pow2(p + 1)
  {
    var y := x;
    p := 0;
    while y > 1
      invariant y > 0
      invariant y * Pow2(p) <= x < (y + 1) * Pow2(p)
    {
      HalvingStep(x, y, Pow2(p));
      y := y / 2;
      p := p + 1;
    }
  }

  lemma HalvingStep(x: nat, y: nat, b: nat)
    requires y > 1 && y * b <= x < (y + 1) * b
    ensures (y / 2) * (2 * b) <= x < (y / 2 + 1) * (2 * b)
  {
    MulMonotone(b, 2 * (y / 2), y);
    MulMonotone(b, y + 1, 2 * (y / 2) + 2);
    assert b * (2 * (y / 2)) == (y / 2) * (2 * b);
    assert b * (2 * (y / 2) + 2) == (y / 2 + 1) * (2 * b);
  }

  // ---- the work items of one pass

  /** The two cells work item t updates in the pass of span m. */
  function ButterflyPair(t: nat, m: nat): Pair
    requires m > 0
  {
    var a := t + Quot(t, m) * m;
    Pair(a, a + m)
  }

  function ButterflyPairs(threads: nat, m: nat): seq<Pair>
    requires m > 0
  {
    seq(threads, t requires 0 <= t < threads => ButterflyPair(t, m))
  }

  /** The sum, and the difference times w^((t mod m) * groups). */
  function Butterfly<T>(R: Ring<T>, w: T, m: nat, groups: nat): Update<T>
    requires m > 0
  {
    (t: nat, x: T, y: T) => (R.add(x, y), R.mul(R.Sub(x, y), Pow(R, w, Rem(t, m) * groups)))
  }

  /** Item m * q + s works in block q, at offset s of each half. */
  lemma PairAt(q: nat, s: nat, m: nat)
    requires s < m
    ensures Quot(m * q + s, m) == q && Rem(m * q + s, m) == s
    ensures ButterflyPair(m * q + s, m) == Pair((2 * m) * q + s, (2 * m) * q + s + m)
  {
    hide Quot, Rem;
    QuotRemOf(m, q, s);
    assert (2 * m) * q == m * q + q * m;
  }

  lemma BlockOf(q: nat, r: nat, m: nat)
    requires r < 2 * m
    ensures Quot((2 * m) * q + r, 2 * m) == q && Rem((2 * m) * q + r, 2 * m) == r
  {
    QuotRemOf(2 * m, q, r);
  }

  lemma BlockBound(m: nat, q: nat, k: nat)
    requires m > 0 && (m * q < m * k || (2 * m) * q < 2 * (m * k))
    ensures m * q + m <= m * k && (2 * m) * q + 2 * m <= 2 * (m * k)
  {
    assert (2 * m) * q == 2 * (m * q);
    if q >= k { MulMonotone(m, k, q); }
    MulMonotone(m, q + 1, k);
    assert m * (q + 1) == m * q + m;
  }

  lemma PairInRange(t: nat, m: nat, groups: nat)
    requires m > 0 && t < m * groups
    ensures ButterflyPair(t, m).a < ButterflyPair(t, m).b < 2 * (m * groups)
  {
    hide ButterflyPair;
    hide Quot, Rem;
    QuotRem(t, m);
    PairAt(Quot(t, m), Rem(t, m), m);
    BlockBound(m, Quot(t, m), groups);
  }

  lemma PairsApart(t: nat, u: nat, m: nat)
    requires m > 0 && t != u
    ensures var p, o := ButterflyPair(t, m), ButterflyPair(u, m); p.a != o.a && p.a != o.b && p.b != o.b
  {
    hide ButterflyPair;
    hide Quot, Rem;
    QuotRem(t, m);
    QuotRem(u, m);
    var q, s, q', s' := Quot(t, m), Rem(t, m), Quot(u, m), Rem(u, m);
    PairAt(q, s, m);
    PairAt(q', s', m);
    BlockOf(q, s, m);
    BlockOf(q', s', m);
    BlockOf(q, s + m, m);
    BlockOf(q', s' + m, m);
  }

  /** The pairs of a pass do not overlap. */
  lemma ButterfliesDisjoint(m: nat, groups: nat)
    requires m > 0
    ensures Disjoint(ButterflyPairs(m * groups, m), 2 * (m * groups))
  {
    hide ButterflyPair;
    var ps := ButterflyPairs(m * groups, m);
    forall t | 0 <= t < |ps| ensures ps[t].a < ps[t].b < 2 * (m * groups) {
      PairInRange(t, m, groups);
    }
    forall t, u | 0 <= t < |ps| && 0 <= u < |ps| && t != u
      ensures ps[t].a != ps[u].a && ps[t].a != ps[u].b && ps[t].b != ps[u].b
    {
      PairsApart(t, u, m);
    }
  }

  /** Every cell belongs to the pair of some item; with ButterfliesDisjoint, the pairs of a pass partition the array. */
  lemma ButterfliesCover(i: nat, m: nat, groups: nat) returns (t: nat, d: nat)
    requires m > 0 && i < 2 * (m * groups)
    ensures t < m * groups && d == Rem(t, m)
    ensures if Rem(i, 2 * m) < m
      then ButterflyPair(t, m) == Pair(i, i + m) && d == Rem(i, 2 * m)
      else i >= m && ButterflyPair(t, m) == Pair(i - m, i) && d == Rem(i, 2 * m) - m
  {
    hide ButterflyPair;
    hide Quot, Rem;
    QuotRem(i, 2 * m);
    var q, r := Quot(i, 2 * m), Rem(i, 2 * m);
    d := if r < m then r else r - m;
    t := m * q + d;
    PairAt(q, d, m);
    BlockBound(m, q, groups);
  }

  lemma ButterflyOf<T(!new)>(R: Ring<T>, w: T, m: nat, groups: nat, t: nat, x: T, y: T)
    requires m > 0
    ensures Butterfly(R, w, m, groups)(t, x, y)
         == (R.add(x, y), R.mul(R.Sub(x, y), Pow(R, w, Rem(t, m) * groups)))
  {}

  lemma TwiddleOf<T(!new)>(R: Ring<T>, w: T, groups: nat, d: nat)
    requires IsCommutativeRing(R)
    ensures Pow(R, Pow(R, w, groups), d) == Pow(R, w, d * groups)
  {
    PowPow(R, w, groups, d);
    assert groups * d == d * groups;
  }

  lemma ButterflyCell<T(!new)>(R: Ring<T>, w: T, m: nat, groups: nat, t: nat, x: seq<T>, y: seq<T>, i: nat, p: Pair)
    requires IsCommutativeRing(R) && m > 0 && i < |x| == |y| && p.a < |x| && p.b < |x| && Rem(|x|, 2 * m) == 0
    requires Rem(i, 2 * m) < m ==> p == Pair(i, i + m) && Rem(t, m) == Rem(i, 2 * m)
    requires Rem(i, 2 * m) >= m ==> i >= m && p == Pair(i - m, i) && Rem(t, m) == Rem(i, 2 * m) - m
    requires (y[p.a], y[p.b]) == Butterfly(R, w, m, groups)(t, x[p.a], x[p.b])
    ensures y[i] == Pass(R, x, m, Pow(R, w, groups))[i]
  {
    hide Quot, Rem, Pass, Pow, Butterfly, IsCommutativeRing;
    PassCell(R, x, m, Pow(R, w, groups), i);
    ButterflyOf(R, w, m, groups, t, x[p.a], x[p.b]);
    TwiddleOf(R, w, groups, Rem(t, m));
  }

  /** Any result of running the items of a pass, in whatever order or interleaving, is the pass. */
  lemma ButterfliesArePass<T(!new)>(R: Ring<T>, w: T, m: nat, groups: nat, x: seq<T>, y: seq<T>)
    requires IsCommutativeRing(R) && m > 0 && |x| == 2 * (m * groups)
    requires Disjoint(ButterflyPairs(m * groups, m), |x|)
    requires Result(ButterflyPairs(m * groups, m), Butterfly(R, w, m, groups), x, y)
    ensures Rem(|x|, 2 * m) == 0
    ensures y == Pass(R, x, m, Pow(R, w, groups))
  {
    hide ButterflyPair, Pass, Pow, Butterfly, IsCommutativeRing, Quot, Rem;
    assert (2 * m) * groups == |x|;
    QuotRemOf(2 * m, groups, 0);
    var ps, z := ButterflyPairs(m * groups, m), Pass(R, x, m, Pow(R, w, groups));
    forall i | 0 <= i < |x| ensures y[i] == z[i] {
      var t, d := ButterfliesCover(i, m, groups);
      ButterflyCell(R, w, m, groups, t, x, y, i, ps[t]);
    }
  }

  // ---- schedules

  /** However the reads and writes of a round's work items interleave, the round computes the pass. */
  lemma AnyButterflySchedule<T(!new)>(R: Ring<T>, w: T, m: nat, groups: nat, s: Round<T>, schedule: seq<nat>)
    requires IsCommutativeRing(R) && m > 0 && |s.mem| == 2 * (m * groups)
    requires WellFormed(ButterflyPairs(m * groups, m), s) && NoneStarted(s)
    requires forall k :: 0 <= k < |schedule| ==> schedule[k] < m * groups
    requires AllFinished(Interleave(ButterflyPairs(m * groups, m), Butterfly(R, w, m, groups), s, schedule))
    ensures Rem(|s.mem|, 2 * m) == 0
    ensures Interleave(ButterflyPairs(m * groups, m), Butterfly(R, w, m, groups), s, schedule).mem
         == Pass(R, s.mem, m, Pow(R, w, groups))
  {
    hide Disjoint, Interleave, Butterfly, Pass, NoneStarted, AllFinished, Result, Rem;
    var ps, f := ButterflyPairs(m * groups, m), Butterfly(R, w, m, groups);
    AnyInterleaving(ps, f, s, schedule);
    ButterfliesArePass(R, w, m, groups, s.mem, Interleave(ps, f, s, schedule).mem);
  }

  /** However the reads and writes of the swaps interleave, they reverse the index bits. */
  lemma AnySwapSchedule<T>(p: nat, s: Round<T>, schedule: seq<nat>)
    requires |s.mem| == Pow2(p) && WellFormed(FlipsBelow(p, Pow2(p)), s) && NoneStarted(s)
    requires forall k :: 0 <= k < |schedule| ==> schedule[k] < |s.at|
    requires AllFinished(Interleave(FlipsBelow(p, Pow2(p)), Swap, s, schedule))
    ensures var y := Interleave(FlipsBelow(p, Pow2(p)), Swap, s, schedule).mem;
      |y| == |s.mem| && forall i :: 0 <= i < |y| ==> y[i] == s.mem[Rev(p, i)]
  {
    hide Disjoint, Interleave, FlipsBelow, Rev, NoneStarted, AllFinished, Result;
    AnyInterleaving(FlipsBelow(p, Pow2(p)), Swap, s, schedule);
    FlipsReverse(p, s.mem, Interleave(FlipsBelow(p, Pow2(p)), Swap, s, schedule).mem);
  }

  /** A round over memory x in which no item has started. */
  function Fresh<T>(x: seq<T>, items: nat): Round<T> {
    Round(x, seq(items, t requires 0 <= t < items => Start))
  }

  /** The schedule takes every item of a fresh round over x to its end, and leaves y. */
  ghost predicate Completes<T>(ps: seq<Pair>, f: Update<T>, x: seq<T>, schedule: seq<nat>, y: seq<T>) {
    && WellFormed(ps, Fresh(x, |ps|)) && (forall k :: 0 <= k < |schedule| ==> schedule[k] < |ps|)
    && AllFinished(Interleave(ps, f, Fresh(x, |ps|), schedule))
    && y == Interleave(ps, f, Fresh(x, |ps|), schedule).mem
  }

  /** The passes from the p-th on, each under a schedule of its own, take x to y. */
  ghost predicate ScheduledPasses<T(!new)>(R: Ring<T>, w: T, passes: nat, p: nat, schedules: seq<seq<nat>>,
                                           x: seq<T>, y: seq<T>)
    requires p <= passes
    decreases passes - p
  {
    if p == passes then y == x
    else
      var m, groups := Pow2(passes - 1 - p), Pow2(p);
      schedules != [] && exists z ::
        && Completes(ButterflyPairs(m * groups, m), Butterfly(R, w, m, groups), x, schedules[0], z)
        && ScheduledPasses(R, w, passes, p + 1, schedules[1..], z, y)
  }

  lemma OneScheduledPass<T(!new)>(R: Ring<T>, w: T, passes: nat, p: nat, schedule: seq<nat>, x: seq<T>, z: seq<T>)
    requires IsCommutativeRing(R) && p < passes && |x| == Pow2(passes)
    requires var m, groups := Pow2(passes - 1 - p), Pow2(p);
      Completes(ButterflyPairs(m * groups, m), Butterfly(R, w, m, groups), x, schedule, z)
    ensures Rem(|x|, 2 * Pow2(passes - 1 - p)) == 0 && |z| == |x|
    ensures z == Pass(R, x, Pow2(passes - 1 - p), Pow(R, w, Pow2(p)))
  {
    hide Interleave, Butterfly, Pass, Rem, Disjoint, IsCommutativeRing, Pow, AllFinished;
    var m, groups := Pow2(passes - 1 - p), Pow2(p);
    Pow2Add(passes - 1 - p, p);
    assert Pow2(passes) == 2 * (m * groups);
    hide Pow2;
    AnyButterflySchedule(R, w, m, groups, Fresh(x, m * groups), schedule);
  }

  /** Whatever the schedules of the passes, together they compute the passes. */
  lemma {:induction false} AnyPassSchedules<T(!new)>(R: Ring<T>, w: T, passes: nat, p: nat, schedules: seq<seq<nat>>,
                                                     x: seq<T>, y: seq<T>)
    requires IsCommutativeRing(R) && p <= passes && |x| == Pow2(passes)
    requires ScheduledPasses(R, w, passes, p, schedules, x, y)
    ensures Rem(|x|, Pow2(passes - p)) == 0 && |y| == |x|
    ensures y == Passes(R, x, passes - p, Pow(R, w, Pow2(p)))
    decreases passes - p
  {
    hide Completes, Butterfly, Pass, Passes, Pow2, Rem, IsCommutativeRing, Pow, ScheduledPasses;
    BlocksOf(passes, passes - p);
    if p == passes {
      NoPassLeft(R, w, passes, schedules, x, y);
    } else {
      var z := FirstPass(R, w, passes, p, schedules, x, y);
      OneScheduledPass(R, w, passes, p, schedules[0], x, z);
      AnyPassSchedules(R, w, passes, p + 1, schedules[1..], z, y);
      PassThenPasses(R, w, passes, p, x, z);
    }
  }

  lemma NoPassLeft<T(!new)>(R: Ring<T>, w: T, passes: nat, schedules: seq<seq<nat>>, x: seq<T>, y: seq<T>)
    requires ScheduledPasses(R, w, passes, passes, schedules, x, y)
    ensures Rem(|x|, Pow2(0)) == 0 && y == x && Passes(R, x, 0, Pow(R, w, Pow2(passes))) == x
  {
    QuotRemOf(1, |x|, 0);
  }

  lemma FirstPass<T(!new)>(R: Ring<T>, w: T, passes: nat, p: nat, schedules: seq<seq<nat>>, x: seq<T>, y: seq<T>)
    returns (z: seq<T>)
    requires p < passes && ScheduledPasses(R, w, passes, p, schedules, x, y)
    ensures schedules != [] && ScheduledPasses(R, w, passes, p + 1, schedules[1..], z, y)
    ensures var m, groups := Pow2(passes - 1 - p), Pow2(p);
      Completes(ButterflyPairs(m * groups, m), Butterfly(R, w, m, groups), x, schedules[0], z)
  {
    hide Completes, Butterfly;
    var m, groups := Pow2(passes - 1 - p), Pow2(p);
    z :| Completes(ButterflyPairs(m * groups, m), Butterfly(R, w, m, groups), x, schedules[0], z)
         && ScheduledPasses(R, w, passes, p + 1, schedules[1..], z, y);
  }

  lemma BlocksOf(passes: nat, k: nat)
    requires k <= passes
    ensures Rem(Pow2(passes), Pow2(k)) == 0
  {
    Pow2Add(k, passes - k);
    QuotRemOf(Pow2(k), Pow2(passes - k), 0);
  }

  lemma PassThenPasses<T(!new)>(R: Ring<T>, w: T, passes: nat, p: nat, x: seq<T>, z: seq<T>)
    requires IsCommutativeRing(R) && p < passes && |x| == Pow2(passes) && |z| == |x|
    requires Rem(|x|, 2 * Pow2(passes - 1 - p)) == 0 && z == Pass(R, x, Pow2(passes - 1 - p), Pow(R, w, Pow2(p)))
    ensures Rem(|x|, Pow2(passes - p)) == 0 && Rem(|z|, Pow2(passes - p - 1)) == 0
    ensures Passes(R, x, passes - p, Pow(R, w, Pow2(p))) == Passes(R, z, passes - p - 1, Pow(R, w, Pow2(p + 1)))
  {
    BlocksOf(passes, passes - p);
    BlocksOf(passes, passes - p - 1);
    PowAdd(R, w, Pow2(p), Pow2(p));
    assert Pow2(p) + Pow2(p) == Pow2(p + 1);
    hide Pass, IsCommutativeRing, Pow, Rem;
  }

  /**
  The transform under any interleaving: each pass under any schedule of its work items, then the swaps under any
  schedule, leave the discrete Fourier transform.
   */
  lemma AnySchedulesTransform<T(!new)>(R: Ring<T>, w: T, passes: nat, schedules: seq<seq<nat>>, swaps: seq<nat>,
                                       x: seq<T>, y: seq<T>, z: seq<T>)
    requires IsCommutativeRing(R) && passes > 0 && |x| == Pow2(passes) && Pow(R, w, |x| / 2) == R.neg(R.one)
    requires ScheduledPasses(R, w, passes, 0, schedules, x, y)
    requires Completes(FlipsBelow(passes, Pow2(passes)), Swap, y, swaps, z)
    ensures z == Transform(R, x, w)
  {
    hide Interleave, AllFinished, ScheduledPasses, FlipsBelow, Passes, IsCommutativeRing, Completes, Rem, Pow,
      Transform;
    HalfOfPow2(passes);
    BlocksOf(passes, passes);
    AnyPassSchedules(R, w, passes, 0, schedules, x, y);
    PowOne(R, w);
    SwapsReverse(passes, swaps, y, z);
    PassesThenReversal(R, x, passes, w, z);
  }

  lemma SwapsReverse<T>(p: nat, swaps: seq<nat>, y: seq<T>, z: seq<T>)
    requires |y| == Pow2(p) && Completes(FlipsBelow(p, Pow2(p)), Swap, y, swaps, z)
    ensures |z| == |y| && forall j :: 0 <= j < |y| ==> z[j] == y[Rev(p, j)]
  {
    hide Interleave, AllFinished, FlipsBelow, Disjoint, Rev;
    AnySwapSchedule(p, Fresh(y, |FlipsBelow(p, Pow2(p))|), swaps);
  }

  // ---- the kernels

  /** One round of the butterfly kernel over all work items. */
  method ButterflyRound<T(!new)>(R: Ring<T>, a: array<T>, w: T, threads: nat, m: nat, groups: nat)
    requires IsCommutativeRing(R) && m > 0 && threads == m * groups && a.Length == 2 * threads
    modifies a
    ensures Rem(a.Length, 2 * m) == 0
    ensures a[..] == Pass(R, old(a[..]), m, Pow(R, w, groups))
  {
    hide Disjoint, Butterfly, Quot, Rem, Pass, IsCommutativeRing, Pow;
    ButterfliesDisjoint(m, groups);
    ghost var x, ps, f := a[..], ButterflyPairs(threads, m), Butterfly(R, w, m, groups);
    assert ps[..0] == [];
    NoItems(f, x);
    for t := 0 to threads
      invariant Disjoint(ps[..t], |x|) && Result(ps[..t], f, x, a[..])
    {
      hide Result;
      ResultExtend(ps, t, f, x, a[..]);
      PairInRange(t, m, groups);
      ghost var y := a[..];
      var i := t + Quot(t, m) * m;
      var j := i + m;
      var k := Rem(t, m) * groups;
      ButterflyOf(R, w, m, groups, t, a[i], a[j]);
      var s, d := R.add(a[i], a[j]), R.Sub(a[i], a[j]);
      a[i] := s;
      a[j] := R.mul(d, Pow(R, w, k));
      assert a[..] == Store(y, Pair(i, j), (s, R.mul(d, Pow(R, w, k))));
    }
    assert ps[..threads] == ps;
    ButterfliesArePass(R, w, m, groups, x, a[..]);
  }

  /** The butterfly kernel: the span halves and the twiddle stride doubles from round to round. */
  method InPlaceFft<T(!new)>(R: Ring<T>, a: array<T>, w: T, passes: nat, threads: nat)
    requires IsCommutativeRing(R) && passes > 0 && a.Length == Pow2(passes) && threads == Pow2(passes - 1)
    modifies a
    ensures Rem(a.Length, Pow2(passes)) == 0
    ensures a[..] == Passes(R, old(a[..]), passes, w)
  {
    var m, groups := threads, 1;
    QuotRemOf(Pow2(passes), 1, 0);
    PowOne(R, w);
    for p := 0 to passes
      invariant p < passes ==> m == Pow2(passes - 1 - p) && groups == Pow2(p) && threads == m * groups
      invariant Rem(a.Length, Pow2(passes - p)) == 0
      invariant Passes(R, a[..], passes - p, Pow(R, w, Pow2(p))) == Passes(R, old(a[..]), passes, w)
    {
      FinerBlocks(a.Length, passes - p);
      ghost var x, v := a[..], Pow(R, w, groups);
      assert Passes(R, x, passes - p, v) == Passes(R, Pass(R, x, m, v), passes - p - 1, R.mul(v, v));
      ButterflyRound(R, a, w, threads, m, groups);
      PowAdd(R, w, groups, groups);
      NextSpan(passes, p);
      m := m / 2;
      groups := if m > 0 then threads / m else 0;
    }
  }

  lemma NextSpan(passes: nat, p: nat)
    requires p < passes
    ensures Pow2(p + 1) == Pow2(p) + Pow2(p)
    ensures p + 1 < passes ==>
      && Pow2(passes - 1 - p) / 2 == Pow2(passes - 2 - p) > 0
      && Pow2(passes - 1) == Pow2(passes - 2 - p) * Pow2(p + 1)
      && Pow2(passes - 1) / Pow2(passes - 2 - p) == Pow2(p + 1)
  {
    if p + 1 < passes {
      HalfOfPow2(passes - 1 - p);
      Pow2Add(passes - 2 - p, p + 1);
      DivUnique(Pow2(passes - 1), Pow2(passes - 2 - p), Pow2(p + 1), 0);
    }
  }

  /** Sizing, passes and swaps together: the whole transform in place. Lengths that are not a power of two, and the
      length 1, are refused. */
  method Radix2Transform<T(!new)>(R: Ring<T>, a: array<T>, w: T) returns (ok: bool)
    requires IsCommutativeRing(R)
    requires (exists p: nat :: p > 0 && a.Length == Pow2(p)) ==> Pow(R, w, a.Length / 2) == R.neg(R.one)
    modifies a
    ensures ok <==> exists p: nat :: p > 0 && a.Length == Pow2(p)
    ensures ok ==> a[..] == Transform(R, old(a[..]), w)
    ensures !ok ==> a[..] == old(a[..])
  {
    var N := a.Length;
    if N == 0 {
      return false;
    }
    var passes := PowerOf2(N);
    IsPowerOf2Exact(N, passes);
    forall p: nat | N == Pow2(p) ensures p == passes {
      Pow2Between(p, passes);
    }
    if !IsPowerOf2(N) || passes == 0 {
      return false;
    }
    HalfOfPow2(passes);
    FlipCountExact(passes);
    var threads := N / 2;
    var flips := N / 2 - Pow2(if passes % 2 == 1 then (passes + 1) / 2 - 1 else passes / 2 - 1);
    var flip := new Pair[flips](_ => Pair(0, 0));
    InPlaceFft(R, a, w, passes, threads);
    ghost var x := a[..];
    BitFlipSetup(flip, N, passes);
    BitFlip(flip, a, passes);
    PassesThenReversal(R, old(a[..]), passes, w, a[..]);
    ok := true;
  }
}
