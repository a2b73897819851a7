/**
Powers of two and bit reversal on natural numbers: `x >> 1` is x / 2, `x & 1` is x % 2, `x << 1 | b` is 2 * x + b.
 */
module Bits {

  function Pow2(n: nat): (r: nat)
    ensures r > 0
  {
    if n == 0 then 1 else 2 * Pow2(n - 1)
  }

  lemma HalfOfPow2(p: nat)
    requires p > 0
    ensures Pow2(p) / 2 == Pow2(p - 1) && Pow2(p) % 2 == 0
  {}

  lemma {:induction false} Pow2Monotone(a: nat, b: nat)
    requires a <= b
    ensures Pow2(a) <= Pow2(b)
  {
    if a < b { Pow2Monotone(a, b - 1); }
  }

  /** A power of two has the exponent its size says. */
  lemma Pow2Between(p: nat, q: nat)
    requires Pow2(q) <= Pow2(p) < Pow2(q + 1)
    ensures p == q
  {
    if p < q { Pow2Monotone(p + 1, q); } else if p > q { Pow2Monotone(q + 1, p); }
  }

  lemma {:induction false} Pow2Add(a: nat, b: nat)
    ensures Pow2(a + b) == Pow2(a) * Pow2(b)
  {
    if a > 0 { Pow2Add(a - 1, b); }
  }

  /** The number made of the p low bits of i, written in the opposite order. */
  function Rev(p: nat, i: nat): (r: nat)
    ensures r < Pow2(p)
  {
    if p == 0 then 0 else (if i % 2 == 0 then 0 else Pow2(p - 1)) + Rev(p - 1, i / 2)
  }

  /** Reversal seen from the low bit. */
  lemma RevFromLowBit(p: nat, h: nat)
    requires p > 0
    ensures Rev(p, 2 * h) == Rev(p - 1, h)
    ensures Rev(p, 2 * h + 1) == Pow2(p - 1) + Rev(p - 1, h)
  {
    assert (2 * h) / 2 == h && (2 * h + 1) / 2 == h;
  }

  /** Reversal seen from the top bit: a clear and a set top bit. */
  lemma {:induction false} RevClearTopBit(p: nat, j: nat)
    requires p > 0 && j < Pow2(p - 1)
    ensures Rev(p, j) == 2 * Rev(p - 1, j)
  {
    if p == 1 {
    } else {
      RevClearTopBit(p - 1, j / 2);
    }
  }

  lemma RevOneBit()
    ensures Pow2(0) == 1 && Rev(0, 0) == 0 && Rev(1, 1) == 1
  {
    RevFromLowBit(1, 0);
  }

  lemma {:induction false} RevSetTopBit(p: nat, j: nat)
    requires p > 0 && j < Pow2(p - 1)
    ensures Rev(p, Pow2(p - 1) + j) == 2 * Rev(p - 1, j) + 1
  {
    hide Rev, Pow2;
    RevOneBit();
    if p > 1 {
      var k, h := Pow2(p - 2), j / 2;
      HalfOfPow2(p - 1);
      RevSetTopBit(p - 1, h);
      RevFromLowBit(p, k + h);
      RevFromLowBit(p - 1, h);
      assert Pow2(p - 1) + j == if j % 2 == 0 then 2 * (k + h) else 2 * (k + h) + 1;
    }
  }

  lemma {:induction false} RevInvolution(p: nat, i: nat)
    requires i < Pow2(p)
    ensures Rev(p, Rev(p, i)) == i
  {
    if p > 0 {
      RevInvolution(p - 1, i / 2);
      if i % 2 == 0 {
        RevClearTopBit(p, Rev(p - 1, i / 2));
      } else {
        RevSetTopBit(p, Rev(p - 1, i / 2));
      }
    }
  }

  /** One round of the reversal loop appends the next bit of i at the low end. */
  lemma {:induction false} RevNextBit(c: nat, i: nat)
    ensures Rev(c + 1, i) == 2 * Rev(c, i) + (i / Pow2(c)) % 2
  {
    if c > 0 {
      RevNextBit(c - 1, i / 2);
      DivByPow2(i, c);
    } else {
      assert Rev(1, i) == (if i % 2 == 0 then 0 else Pow2(0)) + Rev(0, i / 2);
    }
  }

  lemma {:induction false} DivByPow2(i: nat, c: nat)
    requires c > 0
    ensures (i / 2) / Pow2(c - 1) == i / Pow2(c) == (i / Pow2(c - 1)) / 2
  {
    DivDiv(i, 2, Pow2(c - 1));
    DivDiv(i, Pow2(c - 1), 2);
  }

  lemma DivDiv(i: nat, a: nat, b: nat)
    requires a > 0 && b > 0
    ensures a * b > 0 && (i / a) / b == i / (a * b)
  {
    var u, r := i / a, i % a;
    var q, s := u / b, u % b;
    MulAtLeast(a, b);
    NestedDivision(i, a, b, u, r, q, s);
    DivUnique(i, a * b, q, a * s + r);
  }

  lemma NestedDivision(i: nat, a: nat, b: nat, u: nat, r: nat, q: nat, s: nat)
    requires i == a * u + r && u == b * q + s && r < a && s < b
    ensures i == (a * b) * q + (a * s + r) && a * s + r < a * b
  {
    assert a * u == a * (b * q) + a * s;
    assert a * (b * q) == (a * b) * q;
    MulMonotone(a, s, b - 1);
    assert a * (b - 1) == a * b - a;
  }

  lemma MulAtLeast(d: nat, k: nat)
    requires k >= 1
    ensures d * k >= d
  {
    assert d * k == d + d * (k - 1);
  }

  lemma MulMonotone(d: nat, a: int, b: int)
    requires a <= b
    ensures d * a <= d * b
  {
    assert d * b == d * a + d * (b - a);
  }

  lemma QuotientUnique(d: nat, q: int, r: nat, q': int, r': nat)
    requires d * q + r == d * q' + r' && r < d && r' < d
    ensures q == q' && r == r'
  {
    if q' < q {
      MulMonotone(d, q' + 1, q);
    } else if q < q' {
      MulMonotone(d, q + 1, q');
    }
  }

  lemma DivUnique(i: int, d: nat, q: int, r: nat)
    requires i == d * q + r && r < d
    ensures i / d == q && i % d == r
  {
    QuotientUnique(d, q, r, i / d, i % d);
  }

  // ---- quotient and remainder by a variable, kept as functions so that proofs use them through the two lemmas below

  function Quot(i: nat, d: nat): nat
    requires d > 0
  { i / d }

  function Rem(i: nat, d: nat): nat
    requires d > 0
  { i % d }

  lemma QuotRem(i: nat, d: nat)
    requires d > 0
    ensures i == d * Quot(i, d) + Rem(i, d) && Rem(i, d) < d
  {}

  lemma QuotRemOf(d: nat, q: nat, r: nat)
    requires r < d
    ensures Quot(d * q + r, d) == q && Rem(d * q + r, d) == r
  {
    DivUnique(d * q + r, d, q, r);
  }
}
