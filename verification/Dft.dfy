/**
The discrete Fourier transform over a commutative ring, the radix-2 decimation-in-frequency passes as functions on
sequences, and the proof that the passes compute the transform in bit-reversed order.
 */
module Dft {
  import opened Rings
  import opened Bits

  /** Output j of the transform: the sum of x[i] * w^(i * j). */
  function DftSum<T>(R: Ring<T>, x: seq<T>, w: T, j: nat): T {
    if x == [] then R.zero
    else R.add(DftSum(R, x[..|x| - 1], w, j), R.mul(x[|x| - 1], Pow(R, w, (|x| - 1) * j)))
  }

  function Transform<T>(R: Ring<T>, x: seq<T>, w: T): (y: seq<T>)
    ensures |y| == |x|
  {
    seq(|x|, j requires 0 <= j < |x| => DftSum(R, x, w, j))
  }

  /** The value at v of the polynomial with coefficients x. */
  function Eval<T>(R: Ring<T>, x: seq<T>, v: T): T {
    if x == [] then R.zero else R.add(x[0], R.mul(v, Eval(R, x[1..], v)))
  }

  lemma {:induction false} EvalConcat<T(!new)>(R: Ring<T>, a: seq<T>, b: seq<T>, v: T)
    requires IsCommutativeRing(R)
    ensures Eval(R, a + b, v) == R.add(Eval(R, a, v), R.mul(Pow(R, v, |a|), Eval(R, b, v)))
  {
    var eb := Eval(R, b, v);
    if a == [] {
      assert a + b == b;
      MulOne(R, eb);
      AddZero(R, eb);
    } else {
      assert (a + b)[1..] == a[1..] + b;
      EvalConcat(R, a[1..], b, v);
      var ea, q := Eval(R, a[1..], v), Pow(R, v, |a| - 1);
      Distribute(R, v, ea, R.mul(q, eb));
      MulAssoc(R, v, q, eb);
      AddAssoc(R, a[0], R.mul(v, ea), R.mul(Pow(R, v, |a|), eb));
    }
  }

  lemma {:induction false} DftSumIsEval<T(!new)>(R: Ring<T>, x: seq<T>, w: T, j: nat)
    requires IsCommutativeRing(R)
    ensures DftSum(R, x, w, j) == Eval(R, x, Pow(R, w, j))
  {
    if x != [] {
      var n := |x| - 1;
      var v := Pow(R, w, j);
      DftSumIsEval(R, x[..n], w, j);
      assert x[..n] + [x[n]] == x;
      EvalConcat(R, x[..n], [x[n]], v);
      assert Eval(R, [x[n]], v) == R.add(x[n], R.mul(v, R.zero));
      MulZero(R, v);
      AddZero(R, x[n]);
      PowPow(R, w, j, n);
      assert j * n == n * j;
      MulComm(R, x[n], Pow(R, w, n * j));
    }
  }

  // ---- the two halves of one decimation step

  function PointwiseAdd<T>(R: Ring<T>, a: seq<T>, b: seq<T>): (c: seq<T>)
    requires |a| == |b|
    ensures |c| == |a|
  {
    seq(|a|, i requires 0 <= i < |a| => R.add(a[i], b[i]))
  }

  function PointwiseNeg<T>(R: Ring<T>, a: seq<T>): (c: seq<T>)
    ensures |c| == |a|
  {
    seq(|a|, i requires 0 <= i < |a| => R.neg(a[i]))
  }

  /** Element i multiplied by w^i. */
  function Twist<T>(R: Ring<T>, a: seq<T>, w: T): (c: seq<T>)
    ensures |c| == |a|
  {
    seq(|a|, i requires 0 <= i < |a| => R.mul(a[i], Pow(R, w, i)))
  }

  lemma {:induction false} EvalAdd<T(!new)>(R: Ring<T>, a: seq<T>, b: seq<T>, v: T)
    requires IsCommutativeRing(R) && |a| == |b|
    ensures Eval(R, PointwiseAdd(R, a, b), v) == R.add(Eval(R, a, v), Eval(R, b, v))
  {
    if a == [] {
      AddZero(R, R.zero);
    } else {
      var c := PointwiseAdd(R, a, b);
      assert c[1..] == PointwiseAdd(R, a[1..], b[1..]);
      EvalAdd(R, a[1..], b[1..], v);
      var ea, eb := Eval(R, a[1..], v), Eval(R, b[1..], v);
      Distribute(R, v, ea, eb);
      AddSwapMiddle(R, a[0], b[0], R.mul(v, ea), R.mul(v, eb));
    }
  }

  lemma {:induction false} EvalNeg<T(!new)>(R: Ring<T>, a: seq<T>, v: T)
    requires IsCommutativeRing(R)
    ensures Eval(R, PointwiseNeg(R, a), v) == R.mul(R.neg(R.one), Eval(R, a, v))
  {
    var m := R.neg(R.one);
    if a == [] {
      MulZero(R, m);
    } else {
      var c := PointwiseNeg(R, a);
      assert c[1..] == PointwiseNeg(R, a[1..]);
      EvalNeg(R, a[1..], v);
      var ea := Eval(R, a[1..], v);
      MulAssoc(R, v, m, ea);
      MulComm(R, v, m);
      MulAssoc(R, m, v, ea);
      MulNegOne(R, a[0]);
      Distribute(R, m, a[0], R.mul(v, ea));
    }
  }

  /** Multiplying coefficient i by w^i moves the evaluation point from u to w * u. */
  lemma {:induction false} EvalTwist<T(!new)>(R: Ring<T>, a: seq<T>, w: T, u: T)
    requires IsCommutativeRing(R)
    ensures Eval(R, Twist(R, a, w), u) == Eval(R, a, R.mul(w, u))
    decreases |a|
  {
    if a != [] {
      var n := |a| - 1;
      var c, wu := Twist(R, a, w), R.mul(w, u);
      assert c == Twist(R, a[..n], w) + [R.mul(a[n], Pow(R, w, n))];
      assert a == a[..n] + [a[n]];
      EvalTwist(R, a[..n], w, u);
      EvalConcat(R, Twist(R, a[..n], w), [c[n]], u);
      EvalConcat(R, a[..n], [a[n]], wu);
      EvalSingle(R, c[n], u);
      EvalSingle(R, a[n], wu);
      PowOfProduct(R, w, u, n);
      var p, q := Pow(R, w, n), Pow(R, u, n);
      MulComm(R, p, q);
      MulAssoc(R, q, p, a[n]);
      MulComm(R, p, a[n]);
    }
  }

  lemma EvalSingle<T(!new)>(R: Ring<T>, a: T, v: T)
    requires IsCommutativeRing(R)
    ensures Eval(R, [a], v) == a
  {
    assert Eval(R, [a], v) == R.add(a, R.mul(v, R.zero));
    MulZero(R, v);
    AddZero(R, a);
  }

  lemma {:induction false} PowOfProduct<T(!new)>(R: Ring<T>, a: T, b: T, n: nat)
    requires IsCommutativeRing(R)
    ensures Pow(R, R.mul(a, b), n) == R.mul(Pow(R, a, n), Pow(R, b, n))
  {
    if n == 0 {
      MulOne(R, R.one);
    } else {
      PowOfProduct(R, a, b, n - 1);
      var p, q := Pow(R, a, n - 1), Pow(R, b, n - 1);
      MulAssoc(R, a, b, R.mul(p, q));
      MulAssoc(R, b, p, q);
      MulComm(R, b, p);
      MulAssoc(R, p, b, q);
      MulAssoc(R, a, p, R.mul(b, q));
    }
  }

  /** The sums of the two halves carry the even outputs. */
  function EvenHalf<T>(R: Ring<T>, x: seq<T>, m: nat): (y: seq<T>)
    requires |x| == 2 * m
    ensures |y| == m
  {
    PointwiseAdd(R, x[..m], x[m..])
  }

  /** The twisted differences of the two halves carry the odd outputs. */
  function OddHalf<T>(R: Ring<T>, x: seq<T>, m: nat, w: T): (y: seq<T>)
    requires |x| == 2 * m
    ensures |y| == m
  {
    Twist(R, PointwiseAdd(R, x[..m], PointwiseNeg(R, x[m..])), w)
  }

  lemma EvenOutputs<T(!new)>(R: Ring<T>, x: seq<T>, m: nat, w: T, j: nat)
    requires IsCommutativeRing(R) && |x| == 2 * m && Pow(R, w, m) == R.neg(R.one)
    ensures Eval(R, EvenHalf(R, x, m), Pow(R, R.mul(w, w), j)) == Eval(R, x, Pow(R, w, 2 * j))
  {
    var v := Pow(R, w, 2 * j);
    SquarePow(R, w, j);
    FullTurn(R, w, m, j);
    assert x == x[..m] + x[m..];
    EvalConcat(R, x[..m], x[m..], v);
    MulOne(R, Eval(R, x[m..], v));
    EvalAdd(R, x[..m], x[m..], v);
  }

  lemma OddOutputs<T(!new)>(R: Ring<T>, x: seq<T>, m: nat, w: T, j: nat)
    requires IsCommutativeRing(R) && |x| == 2 * m && Pow(R, w, m) == R.neg(R.one)
    ensures Eval(R, OddHalf(R, x, m, w), Pow(R, R.mul(w, w), j)) == Eval(R, x, Pow(R, w, 2 * j + 1))
  {
    var u, v := Pow(R, w, 2 * j), Pow(R, w, 2 * j + 1);
    SquarePow(R, w, j);
    EvalTwist(R, PointwiseAdd(R, x[..m], PointwiseNeg(R, x[m..])), w, u);
    assert v == R.mul(w, u);
    FullTurn(R, w, m, j);
    PowOfProduct(R, w, u, m);
    MulOne(R, Pow(R, w, m));
    assert x == x[..m] + x[m..];
    EvalConcat(R, x[..m], x[m..], v);
    EvalAdd(R, x[..m], PointwiseNeg(R, x[m..]), v);
    EvalNeg(R, x[m..], v);
  }

  lemma SquarePow<T(!new)>(R: Ring<T>, w: T, j: nat)
    requires IsCommutativeRing(R)
    ensures Pow(R, R.mul(w, w), j) == Pow(R, w, 2 * j)
  {
    assert Pow(R, w, 2) == R.mul(w, Pow(R, w, 1));
    PowOne(R, w);
    PowPow(R, w, 2, j);
  }

  /** If w^m is minus one, then every even power of w raised to m is one. */
  lemma FullTurn<T(!new)>(R: Ring<T>, w: T, m: nat, j: nat)
    requires IsCommutativeRing(R) && Pow(R, w, m) == R.neg(R.one)
    ensures Pow(R, Pow(R, w, 2 * j), m) == R.one
  {
    PowPow(R, w, 2 * j, m);
    DoubleTimes(j, m);
    PowPow(R, w, 2 * m, j);
    TwiceMinusOne(R, w, m);
    PowOfOne(R, j);
  }

  lemma DoubleTimes(j: nat, m: nat)
    ensures (2 * j) * m == (2 * m) * j && m + m == 2 * m
  {}

  lemma TwiceMinusOne<T(!new)>(R: Ring<T>, w: T, m: nat)
    requires IsCommutativeRing(R) && Pow(R, w, m) == R.neg(R.one)
    ensures Pow(R, w, 2 * m) == R.one
  {
    DoubleTimes(0, m);
    PowAdd(R, w, m, m);
    MulNegOne(R, R.neg(R.one));
    NegNeg(R, R.one);
  }

  // ---- a pass over the whole array

  lemma BlockIndex(i: nat, n: nat, m: nat)
    requires m > 0 && i < n && Rem(n, 2 * m) == 0
    ensures Rem(i, 2 * m) < m ==> i + m < n
    ensures Rem(i, 2 * m) >= m ==> i >= m
  {
    hide Quot, Rem;
    QuotRem(i, 2 * m);
    QuotRem(n, 2 * m);
    InBlock(i, n, 2 * m, Quot(i, 2 * m), Rem(i, 2 * m), Quot(n, 2 * m));
  }

  lemma InBlock(i: nat, n: nat, M: nat, q: nat, r: nat, k: nat)
    requires i == M * q + r && r < M && n == M * k && i < n
    ensures i - r + M <= n && r <= i
  {
    if q >= k { MulMonotone(M, k, q); }
    MulMonotone(M, q + 1, k);
    assert M * (q + 1) == M * q + M;
  }

  /** Every block of 2m elements is replaced by its sums followed by its twisted differences. */
  function Pass<T>(R: Ring<T>, x: seq<T>, m: nat, w: T): (y: seq<T>)
    requires m > 0 && Rem(|x|, 2 * m) == 0
    ensures |y| == |x|
  {
    seq(|x|, i requires 0 <= i < |x| =>
      BlockIndex(i, |x|, m);
      if Rem(i, 2 * m) < m then R.add(x[i], x[i + m])
      else R.mul(R.Sub(x[i - m], x[i]), Pow(R, w, Rem(i, 2 * m) - m)))
  }

  lemma PassCell<T>(R: Ring<T>, x: seq<T>, m: nat, w: T, i: nat)
    requires m > 0 && Rem(|x|, 2 * m) == 0 && i < |x|
    ensures var r := Rem(i, 2 * m);
      if r < m then i + m < |x| && Pass(R, x, m, w)[i] == R.add(x[i], x[i + m])
      else i >= m && Pass(R, x, m, w)[i] == R.mul(R.Sub(x[i - m], x[i]), Pow(R, w, r - m))
  {
    hide Quot, Rem;
    BlockIndex(i, |x|, m);
  }

  /** The passes of span m, m / 2, ..., 1; the twiddle base is squared each time. */
  function Passes<T>(R: Ring<T>, x: seq<T>, p: nat, w: T): (y: seq<T>)
    requires Rem(|x|, Pow2(p)) == 0
    ensures |y| == |x|
    decreases p
  {
    if p == 0 then x
    else
      FinerBlocks(|x|, p);
      Passes(R, Pass(R, x, Pow2(p - 1), w), p - 1, R.mul(w, w))
  }

  lemma FinerBlocks(n: nat, p: nat)
    requires p > 0 && Rem(n, Pow2(p)) == 0
    ensures Rem(n, 2 * Pow2(p - 1)) == 0 && Rem(n, Pow2(p - 1)) == 0
  {
    hide Quot, Rem;
    var h := Pow2(p - 1);
    QuotRem(n, 2 * h);
    var q := Quot(n, 2 * h);
    assert (2 * h) * q == h * (2 * q);
    QuotRemOf(h, 2 * q, 0);
  }

  lemma BlocksAdd(a: nat, b: nat, M: nat)
    requires M > 0 && Rem(a, M) == 0
    ensures Rem(a + b, M) == Rem(b, M)
  {
    hide Quot, Rem;
    QuotRem(a, M);
    QuotRem(b, M);
    assert M * (Quot(a, M) + Quot(b, M)) == M * Quot(a, M) + M * Quot(b, M);
    QuotRemOf(M, Quot(a, M) + Quot(b, M), Rem(b, M));
  }

  /** An element of a pass depends only on its own block. */
  lemma PassShift<T>(R: Ring<T>, x: seq<T>, y: seq<T>, d: nat, i: nat, m: nat, w: T)
    requires m > 0 && Rem(|x|, 2 * m) == 0 && Rem(|y|, 2 * m) == 0 && Rem(d, 2 * m) == 0
    requires i < |x| && d + |x| <= |y| && y[d..d + |x|] == x
    ensures Pass(R, y, m, w)[d + i] == Pass(R, x, m, w)[i]
  {
    hide Pass;
    hide Quot, Rem;
    BlocksAdd(d, i, 2 * m);
    PassCell(R, x, m, w, i);
    PassCell(R, y, m, w, d + i);
    var r := Rem(i, 2 * m);
    var z := y[d..d + |x|];
    assert y[d + i] == z[i];
    assert r < m ==> y[d + i + m] == z[i + m];
    assert r >= m ==> y[d + i - m] == z[i - m];
  }

  lemma PassConcat<T>(R: Ring<T>, a: seq<T>, b: seq<T>, m: nat, w: T)
    requires m > 0 && Rem(|a|, 2 * m) == 0 && Rem(|b|, 2 * m) == 0
    ensures Rem(|a| + |b|, 2 * m) == 0
    ensures Pass(R, a + b, m, w) == Pass(R, a, m, w) + Pass(R, b, m, w)
  {
    hide Quot, Rem;
    hide Pass;
    QuotRemOf(2 * m, 0, 0);
    BlocksAdd(|a|, |b|, 2 * m);
    var l, r := Pass(R, a + b, m, w), Pass(R, a, m, w) + Pass(R, b, m, w);
    forall i | 0 <= i < |a| + |b| ensures l[i] == r[i] {
      if i < |a| {
        PassShift(R, a, a + b, 0, i, m, w);
      } else {
        PassShift(R, b, a + b, |a|, i - |a|, m, w);
      }
    }
  }

  lemma {:induction false} PassesConcat<T>(R: Ring<T>, a: seq<T>, b: seq<T>, p: nat, w: T)
    requires Rem(|a|, Pow2(p)) == 0 && Rem(|b|, Pow2(p)) == 0
    ensures Rem(|a| + |b|, Pow2(p)) == 0
    ensures Passes(R, a + b, p, w) == Passes(R, a, p, w) + Passes(R, b, p, w)
    decreases p
  {
    hide Quot, Rem;
    BlocksAdd(|a|, |b|, Pow2(p));
    if p > 0 {
      var m := Pow2(p - 1);
      FinerBlocks(|a|, p);
      FinerBlocks(|b|, p);
      PassConcat(R, a, b, m, w);
      PassesConcat(R, Pass(R, a, m, w), Pass(R, b, m, w), p - 1, R.mul(w, w));
    }
  }

  /** One pass over a single block is the decimation step. */
  lemma PassOfOneBlock<T(!new)>(R: Ring<T>, x: seq<T>, m: nat, w: T)
    requires m > 0 && |x| == 2 * m
    ensures Rem(|x|, 2 * m) == 0
    ensures Pass(R, x, m, w) == EvenHalf(R, x, m) + OddHalf(R, x, m, w)
  {
    hide Quot, Rem;
    QuotRemOf(2 * m, 1, 0);
    var l, r := Pass(R, x, m, w), EvenHalf(R, x, m) + OddHalf(R, x, m, w);
    forall i | 0 <= i < 2 * m ensures l[i] == r[i] {
      QuotRemOf(2 * m, 0, i);
      BlockIndex(i, 2 * m, m);
    }
  }

  /** The first pass separates the problem into the even and the odd half. */
  lemma PassesSplit<T(!new)>(R: Ring<T>, x: seq<T>, p: nat, w: T)
    requires p > 0 && |x| == Pow2(p)
    ensures Rem(|x|, Pow2(p)) == 0 && Rem(Pow2(p - 1), Pow2(p - 1)) == 0
    ensures Passes(R, x, p, w)
      == Passes(R, EvenHalf(R, x, Pow2(p - 1)), p - 1, R.mul(w, w))
         + Passes(R, OddHalf(R, x, Pow2(p - 1), w), p - 1, R.mul(w, w))
  {
    hide Quot, Rem;
    var m := Pow2(p - 1);
    QuotRemOf(Pow2(p), 1, 0);
    QuotRemOf(m, 1, 0);
    PassOfOneBlock(R, x, m, w);
    PassesConcat(R, EvenHalf(R, x, m), OddHalf(R, x, m, w), p - 1, R.mul(w, w));
  }

  lemma EvenOutputOfPasses<T(!new)>(R: Ring<T>, x: seq<T>, p: nat, w: T, h: nat)
    requires IsCommutativeRing(R) && p > 0 && |x| == Pow2(p) && h < Pow2(p - 1)
    requires Pow(R, w, Pow2(p - 1)) == R.neg(R.one)
    requires Rem(Pow2(p - 1), Pow2(p - 1)) == 0
    requires Passes(R, EvenHalf(R, x, Pow2(p - 1)), p - 1, R.mul(w, w))[Rev(p - 1, h)]
          == Eval(R, EvenHalf(R, x, Pow2(p - 1)), Pow(R, R.mul(w, w), h))
    ensures Rem(|x|, Pow2(p)) == 0
    ensures Passes(R, x, p, w)[Rev(p, 2 * h)] == Eval(R, x, Pow(R, w, 2 * h))
  {
    hide Quot, Rem;
    hide Passes, Eval, EvenHalf, Pow;
    PassesSplit(R, x, p, w);
    EvenOutputs(R, x, Pow2(p - 1), w, h);
  }

  lemma OddOutputOfPasses<T(!new)>(R: Ring<T>, x: seq<T>, p: nat, w: T, h: nat)
    requires IsCommutativeRing(R) && p > 0 && |x| == Pow2(p) && h < Pow2(p - 1)
    requires Pow(R, w, Pow2(p - 1)) == R.neg(R.one)
    requires Rem(Pow2(p - 1), Pow2(p - 1)) == 0
    requires Passes(R, OddHalf(R, x, Pow2(p - 1), w), p - 1, R.mul(w, w))[Rev(p - 1, h)]
          == Eval(R, OddHalf(R, x, Pow2(p - 1), w), Pow(R, R.mul(w, w), h))
    ensures Rem(|x|, Pow2(p)) == 0
    ensures Passes(R, x, p, w)[Rev(p, 2 * h + 1)] == Eval(R, x, Pow(R, w, 2 * h + 1))
  {
    hide Quot, Rem;
    hide Passes, Eval, OddHalf, Pow;
    PassesSplit(R, x, p, w);
    OddOutputs(R, x, Pow2(p - 1), w, h);
  }

  lemma OnePointTransform<T(!new)>(R: Ring<T>, x: seq<T>, w: T)
    requires IsCommutativeRing(R) && |x| == 1
    ensures Rem(|x|, Pow2(0)) == 0
    ensures Passes(R, x, 0, w)[Rev(0, 0)] == Eval(R, x, Pow(R, w, 0))
  {
    EvalSingle(R, x[0], R.one);
    assert x == [x[0]];
  }

  /** The passes leave output j of the transform at the bit-reversed position of j. */
  lemma {:induction false} PassesComputeDft<T(!new)>(R: Ring<T>, x: seq<T>, p: nat, w: T, j: nat)
    requires IsCommutativeRing(R) && |x| == Pow2(p) && j < Pow2(p)
    requires p > 0 ==> Pow(R, w, Pow2(p - 1)) == R.neg(R.one)
    ensures Rem(|x|, Pow2(p)) == 0
    ensures Passes(R, x, p, w)[Rev(p, j)] == Eval(R, x, Pow(R, w, j))
    decreases p
  {
    hide Quot, Rem;
    hide Passes, Eval, OddHalf, EvenHalf, Pow, Rev;
    QuotRemOf(Pow2(p), 1, 0);
    if p == 0 {
      OnePointTransform(R, x, w);
    } else {
      var m, ww, h := Pow2(p - 1), R.mul(w, w), j / 2;
      if p > 1 { SquarePow(R, w, Pow2(p - 2)); }
      if j % 2 == 0 {
        PassesComputeDft(R, EvenHalf(R, x, m), p - 1, ww, h);
        EvenOutputOfPasses(R, x, p, w, h);
      } else {
        PassesComputeDft(R, OddHalf(R, x, m, w), p - 1, ww, h);
        OddOutputOfPasses(R, x, p, w, h);
      }
    }
  }

  /** Undoing the bit reversal after all passes gives the transform in natural order. */
  lemma PassesThenReversal<T(!new)>(R: Ring<T>, x: seq<T>, p: nat, w: T, y: seq<T>)
    requires IsCommutativeRing(R) && |x| == Pow2(p) && p > 0
    requires Pow(R, w, Pow2(p - 1)) == R.neg(R.one)
    requires Rem(|x|, Pow2(p)) == 0
    requires |y| == |x| && forall j :: 0 <= j < |x| ==> y[j] == Passes(R, x, p, w)[Rev(p, j)]
    ensures y == Transform(R, x, w)
  {
    forall j | 0 <= j < |x| ensures y[j] == Transform(R, x, w)[j] {
      PassesComputeDft(R, x, p, w, j);
      DftSumIsEval(R, x, w, j);
    }
  }

  // ---- four complex points with the kernel's own twiddle

  /** e^(-2 pi i / 4), which the kernel takes as the cosine and the negated sine of a quarter turn. */
  const QUARTER := Complex(0.0, -1.0)

  /** Multiplying by powers of -i turns a number clockwise by quarters. */
  lemma QuarterTurns(a: Complex)
    ensures CMul(a, COMPLEX.one) == a && CMul(a, QUARTER) == Complex(a.im, -a.re)
    ensures CMul(a, Complex(-1.0, 0.0)) == Complex(-a.re, -a.im) && CMul(a, I) == Complex(-a.im, a.re)
  {}

  lemma QuarterPowers()
    ensures Pow(COMPLEX, QUARTER, 0) == Pow(COMPLEX, QUARTER, 4) == COMPLEX.one && Pow(COMPLEX, QUARTER, 1) == QUARTER
    ensures Pow(COMPLEX, QUARTER, 2) == Pow(COMPLEX, QUARTER, 6) == Complex(-1.0, 0.0)
    ensures Pow(COMPLEX, QUARTER, 3) == I && Pow(COMPLEX, QUARTER, 9) == QUARTER
  {
    hide CMul;
    QuarterTurns(COMPLEX.one);
    QuarterTurns(QUARTER);
    var w := QUARTER;
    assert Pow(COMPLEX, w, 0) == COMPLEX.one;
    assert Pow(COMPLEX, w, 1) == CMul(w, COMPLEX.one) == w;
    assert Pow(COMPLEX, w, 2) == CMul(w, w) == Complex(-1.0, 0.0);
    assert Pow(COMPLEX, w, 3) == CMul(w, Complex(-1.0, 0.0)) == I;
    assert Pow(COMPLEX, w, 4) == CMul(w, I) == COMPLEX.one;
    assert Pow(COMPLEX, w, 5) == w && Pow(COMPLEX, w, 6) == Complex(-1.0, 0.0);
    assert Pow(COMPLEX, w, 7) == I && Pow(COMPLEX, w, 8) == COMPLEX.one && Pow(COMPLEX, w, 9) == w;
  }

  /** The transform of four points in real components; -i is a root as the theorem asks for. */
  lemma FourPoints(x: seq<Complex>)
    requires |x| == 4
    ensures Pow(COMPLEX, QUARTER, |x| / 2) == COMPLEX.neg(COMPLEX.one)
    ensures var a, b, c, d, y := x[0], x[1], x[2], x[3], Transform(COMPLEX, x, QUARTER);
      && y[0] == Complex(a.re + b.re + c.re + d.re, a.im + b.im + c.im + d.im)
      && y[1] == Complex(a.re + b.im - c.re - d.im, a.im - b.re - c.im + d.re)
      && y[2] == Complex(a.re - b.re + c.re - d.re, a.im - b.im + c.im - d.im)
      && y[3] == Complex(a.re - b.im - c.re + d.im, a.im + b.re - c.im - d.re)
  {
    hide CMul, Pow;
    QuarterPowers();
    FourTerms(x, 0);
    FourTerms(x, 1);
    FourTerms(x, 2);
    FourTerms(x, 3);
    hide DftSum;
    QuarterTurns(x[0]);
    QuarterTurns(x[1]);
    QuarterTurns(x[2]);
    QuarterTurns(x[3]);
  }

  lemma FourTerms(x: seq<Complex>, j: nat)
    requires |x| == 4
    ensures DftSum(COMPLEX, x, QUARTER, j)
         == CAdd(CAdd(CAdd(CMul(x[0], Pow(COMPLEX, QUARTER, 0)), CMul(x[1], Pow(COMPLEX, QUARTER, j))),
                      CMul(x[2], Pow(COMPLEX, QUARTER, 2 * j))), CMul(x[3], Pow(COMPLEX, QUARTER, 3 * j)))
  {
    hide CMul, Pow;
    var R, w := COMPLEX, QUARTER;
    var x1, x2, x3 := x[..1], x[..2], x[..3];
    assert x3[..2] == x2 && x2[..1] == x1 && x1[..0] == [];
    assert DftSum(R, x[..0], w, j) == R.zero;
    assert DftSum(R, x1, w, j) == CMul(x[0], Pow(R, w, 0));
    assert DftSum(R, x2, w, j) == CAdd(DftSum(R, x1, w, j), CMul(x[1], Pow(R, w, 1 * j)));
    assert DftSum(R, x3, w, j) == CAdd(DftSum(R, x2, w, j), CMul(x[2], Pow(R, w, 2 * j)));
  }
}
