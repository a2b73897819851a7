/**
Commutative rings as records of operations, so that the transform is verified for any exact number type.
 */
module Rings {

  datatype Ring<!T> = Ring(zero: T, one: T, add: (T, T) -> T, neg: T -> T, mul: (T, T) -> T) {
    function Sub(a: T, b: T): T { add(a, neg(b)) }
  }

  /** Mentioned where the laws are wanted for a, b and c; the laws are instantiated nowhere else. */
  predicate Use<T>(a: T, b: T, c: T) { true }

  predicate Laws<T(==)>(R: Ring<T>, a: T, b: T, c: T) {
    && R.add(a, b) == R.add(b, a)
    && R.add(R.add(a, b), c) == R.add(a, R.add(b, c))
    && R.add(a, R.zero) == a
    && R.add(a, R.neg(a)) == R.zero
    && R.mul(a, b) == R.mul(b, a)
    && R.mul(R.mul(a, b), c) == R.mul(a, R.mul(b, c))
    && R.mul(a, R.one) == a
    && R.mul(a, R.add(b, c)) == R.add(R.mul(a, b), R.mul(a, c))
  }

  ghost predicate IsCommutativeRing<T(!new)>(R: Ring<T>) {
    forall a: T, b: T, c: T {:trigger Use(a, b, c)} :: Use(a, b, c) ==> Laws(R, a, b, c)
  }

  lemma AddComm<T(!new)>(R: Ring<T>, a: T, b: T)
    requires IsCommutativeRing(R)
    ensures R.add(a, b) == R.add(b, a)
  { assert Use(a, b, a); }

  lemma AddAssoc<T(!new)>(R: Ring<T>, a: T, b: T, c: T)
    requires IsCommutativeRing(R)
    ensures R.add(R.add(a, b), c) == R.add(a, R.add(b, c))
  { assert Use(a, b, c); }

  lemma AddZero<T(!new)>(R: Ring<T>, a: T)
    requires IsCommutativeRing(R)
    ensures R.add(a, R.zero) == a && R.add(R.zero, a) == a
  { assert Use(a, R.zero, a); }

  lemma AddNeg<T(!new)>(R: Ring<T>, a: T)
    requires IsCommutativeRing(R)
    ensures R.add(a, R.neg(a)) == R.zero
  { assert Use(a, a, a); }

  lemma MulComm<T(!new)>(R: Ring<T>, a: T, b: T)
    requires IsCommutativeRing(R)
    ensures R.mul(a, b) == R.mul(b, a)
  { assert Use(a, b, a); }

  lemma MulAssoc<T(!new)>(R: Ring<T>, a: T, b: T, c: T)
    requires IsCommutativeRing(R)
    ensures R.mul(R.mul(a, b), c) == R.mul(a, R.mul(b, c))
  { assert Use(a, b, c); }

  lemma MulOne<T(!new)>(R: Ring<T>, a: T)
    requires IsCommutativeRing(R)
    ensures R.mul(a, R.one) == a && R.mul(R.one, a) == a
  { assert Use(a, R.one, a); }

  lemma Distribute<T(!new)>(R: Ring<T>, a: T, b: T, c: T)
    requires IsCommutativeRing(R)
    ensures R.mul(a, R.add(b, c)) == R.add(R.mul(a, b), R.mul(a, c))
    ensures R.mul(R.add(b, c), a) == R.add(R.mul(b, a), R.mul(c, a))
  { assert Use(a, b, c); MulComm(R, a, b); MulComm(R, a, c); MulComm(R, a, R.add(b, c)); }

  lemma AddSwapMiddle<T(!new)>(R: Ring<T>, a: T, b: T, c: T, d: T)
    requires IsCommutativeRing(R)
    ensures R.add(R.add(a, b), R.add(c, d)) == R.add(R.add(a, c), R.add(b, d))
  {
    AddAssoc(R, a, b, R.add(c, d));
    AddAssoc(R, b, c, d);
    AddComm(R, b, c);
    AddAssoc(R, c, b, d);
    AddAssoc(R, a, c, R.add(b, d));
  }

  lemma AddCancel<T(!new)>(R: Ring<T>, a: T, b: T, c: T)
    requires IsCommutativeRing(R) && R.add(a, b) == R.add(a, c)
    ensures b == c
  {
    var n := R.neg(a);
    AddNeg(R, a); AddComm(R, a, n);
    AddAssoc(R, n, a, b); AddAssoc(R, n, a, c);
    AddZero(R, b); AddZero(R, c);
  }

  lemma MulZero<T(!new)>(R: Ring<T>, a: T)
    requires IsCommutativeRing(R)
    ensures R.mul(a, R.zero) == R.zero && R.mul(R.zero, a) == R.zero
  {
    AddZero(R, R.zero);
    Distribute(R, a, R.zero, R.zero);
    var z := R.mul(a, R.zero);
    AddZero(R, z);
    AddCancel(R, z, z, R.zero);
    MulComm(R, a, R.zero);
  }

  /** Multiplying by minus one negates. */
  lemma MulNegOne<T(!new)>(R: Ring<T>, a: T)
    requires IsCommutativeRing(R)
    ensures R.mul(R.neg(R.one), a) == R.neg(a)
  {
    var m := R.neg(R.one);
    MulOne(R, a);
    AddNeg(R, R.one);
    Distribute(R, a, R.one, m);
    MulZero(R, a);
    AddNeg(R, a);
    AddCancel(R, a, R.mul(m, a), R.neg(a));
  }

  lemma NegNeg<T(!new)>(R: Ring<T>, a: T)
    requires IsCommutativeRing(R)
    ensures R.neg(R.neg(a)) == a
  {
    AddNeg(R, a);
    AddNeg(R, R.neg(a));
    AddComm(R, a, R.neg(a));
    AddCancel(R, R.neg(a), R.neg(R.neg(a)), a);
  }

  // ---- powers

  function Pow<T>(R: Ring<T>, w: T, n: nat): T {
    if n == 0 then R.one else R.mul(w, Pow(R, w, n - 1))
  }

  lemma {:induction false} PowAdd<T(!new)>(R: Ring<T>, w: T, a: nat, b: nat)
    requires IsCommutativeRing(R)
    ensures Pow(R, w, a + b) == R.mul(Pow(R, w, a), Pow(R, w, b))
  {
    if a == 0 {
      MulOne(R, Pow(R, w, b));
    } else {
      PowAdd(R, w, a - 1, b);
      MulAssoc(R, w, Pow(R, w, a - 1), Pow(R, w, b));
    }
  }

  lemma {:induction false} PowPow<T(!new)>(R: Ring<T>, w: T, a: nat, b: nat)
    requires IsCommutativeRing(R)
    ensures Pow(R, Pow(R, w, a), b) == Pow(R, w, a * b)
  {
    if b > 0 {
      PowPow(R, w, a, b - 1);
      PowAdd(R, w, a, a * (b - 1));
      assert a * b == a + a * (b - 1);
    }
  }

  lemma {:induction false} PowOfOne<T(!new)>(R: Ring<T>, n: nat)
    requires IsCommutativeRing(R)
    ensures Pow(R, R.one, n) == R.one
  {
    if n > 0 { PowOfOne(R, n - 1); MulOne(R, R.one); }
  }

  lemma PowOne<T(!new)>(R: Ring<T>, w: T)
    requires IsCommutativeRing(R)
    ensures Pow(R, w, 1) == w
  {
    assert Pow(R, w, 0) == R.one;
    MulOne(R, w);
  }

  // ---- complex numbers over the reals, with the component arithmetic of the kernels

  datatype Complex = Complex(re: real, im: real)

  function CAdd(a: Complex, b: Complex): Complex { Complex(a.re + b.re, a.im + b.im) }

  function CNeg(a: Complex): Complex { Complex(-a.re, -a.im) }

  function CMul(a: Complex, b: Complex): Complex {
    Complex(a.re * b.re - a.im * b.im, a.im * b.re + a.re * b.im)
  }

  const COMPLEX: Ring<Complex> := Ring(Complex(0.0, 0.0), Complex(1.0, 0.0), CAdd, CNeg, CMul)

  lemma RealPartsAgree(p: real, q: real, r: real, s: real, t: real, u: real)
    ensures (p * q - r * s) * t - (r * q + p * s) * u == p * (q * t - s * u) - r * (s * t + q * u)
  {}

  lemma ImaginaryPartsAgree(p: real, q: real, r: real, s: real, t: real, u: real)
    ensures (r * q + p * s) * t + (p * q - r * s) * u == r * (q * t - s * u) + p * (s * t + q * u)
  {}

  lemma CMulAssoc(a: Complex, b: Complex, c: Complex)
    ensures CMul(CMul(a, b), c) == CMul(a, CMul(b, c))
  {
    RealPartsAgree(a.re, b.re, a.im, b.im, c.re, c.im);
    ImaginaryPartsAgree(a.re, b.re, a.im, b.im, c.re, c.im);
  }

  lemma CMulDistribute(a: Complex, b: Complex, c: Complex)
    ensures CMul(a, CAdd(b, c)) == CAdd(CMul(a, b), CMul(a, c))
  {
    assert a.re * (b.re + c.re) == a.re * b.re + a.re * c.re;
    assert a.im * (b.im + c.im) == a.im * b.im + a.im * c.im;
    assert a.im * (b.re + c.re) == a.im * b.re + a.im * c.re;
    assert a.re * (b.im + c.im) == a.re * b.im + a.re * c.im;
  }

  lemma CMulComm(a: Complex, b: Complex)
    ensures CMul(a, b) == CMul(b, a)
    ensures CMul(a, Complex(1.0, 0.0)) == a
  {}

  /** The kernels' component arithmetic, taken exactly, is one such ring. */
  lemma ComplexIsCommutativeRing()
    ensures IsCommutativeRing(COMPLEX)
  {
    forall a: Complex, b: Complex, c: Complex {:trigger Use(a, b, c)} | Use(a, b, c)
      ensures Laws(COMPLEX, a, b, c)
    {
      CMulComm(a, b);
      CMulAssoc(a, b, c);
      CMulDistribute(a, b, c);
      hide CMul;
    }
  }

  // ---- which ring it is

  const I := Complex(0.0, 1.0)

  function Real(r: real): Complex { Complex(r, 0.0) }

  function Times(r: real, s: real): real { r * s }

  /**
  What sets the complex product apart among commutative rings with this addition: i squares to -1, and real numbers and
  i multiply as they look.
   */
  ghost predicate IsComplexProduct(mul: (Complex, Complex) -> Complex) {
    && mul(I, I) == Real(-1.0)
    && (forall r: real, s: real :: mul(Real(r), Real(s)) == Real(Times(r, s)))
    && (forall r: real :: mul(Real(r), I) == Complex(0.0, r))
  }

  /** (p + q i) (r + s i) == (p r + (q s) (i i)) + (q r + p s) i in every commutative ring. */
  lemma ProductOfSums<T(!new)>(R: Ring<T>, p: T, q: T, r: T, s: T, i: T)
    requires IsCommutativeRing(R)
    ensures R.mul(R.add(p, R.mul(q, i)), R.add(r, R.mul(s, i)))
         == R.add(R.add(R.mul(p, r), R.mul(R.mul(q, s), R.mul(i, i))), R.mul(R.add(R.mul(q, r), R.mul(p, s)), i))
  {
    var qi, si := R.mul(q, i), R.mul(s, i);
    var pr, qsii, qri, psi := R.mul(p, r), R.mul(R.mul(q, s), R.mul(i, i)), R.mul(R.mul(q, r), i),
      R.mul(R.mul(p, s), i);
    Distribute(R, R.add(p, qi), r, si);
    Distribute(R, r, p, qi);
    Distribute(R, si, p, qi);
    MulAssoc(R, p, s, i);
    SwapFactors(R, q, i, r);
    MulAssoc(R, qi, s, i);
    SwapFactors(R, q, i, s);
    MulAssoc(R, R.mul(q, s), i, i);
    Distribute(R, i, R.mul(q, r), R.mul(p, s));
    hide IsCommutativeRing;
    AddSwapMiddle(R, pr, qri, psi, qsii);
    AddComm(R, psi, qsii);
    AddSwapMiddle(R, pr, qri, qsii, psi);
  }

  lemma SwapFactors<T(!new)>(R: Ring<T>, q: T, i: T, r: T)
    requires IsCommutativeRing(R)
    ensures R.mul(R.mul(q, i), r) == R.mul(R.mul(q, r), i)
  {
    MulAssoc(R, q, i, r);
    MulComm(R, i, r);
    MulAssoc(R, q, r, i);
  }

  /** No other product has these properties and satisfies the ring laws. */
  lemma OnlyProduct(R: Ring<Complex>, a: Complex, b: Complex)
    requires IsCommutativeRing(R) && R.add == CAdd && IsComplexProduct(R.mul)
    ensures R.mul(a, b) == COMPLEX.mul(a, b)
  {
    hide *;
    ProductOfSums(R, Real(a.re), Real(a.im), Real(b.re), Real(b.im), I);
    InParts(R.mul, a);
    InParts(R.mul, b);
    PartsOfProduct(R.mul, a, b);
    ProductInParts(a, b);
  }

  lemma InParts(mul: (Complex, Complex) -> Complex, a: Complex)
    requires IsComplexProduct(mul)
    ensures CAdd(Real(a.re), mul(Real(a.im), I)) == a
  {}

  lemma PartsOfProduct(mul: (Complex, Complex) -> Complex, a: Complex, b: Complex)
    requires IsComplexProduct(mul)
    ensures var x, y, z, u := Times(a.re, b.re), Times(a.im, b.im), Times(a.im, b.re), Times(a.re, b.im);
      CAdd(CAdd(mul(Real(a.re), Real(b.re)), mul(mul(Real(a.im), Real(b.im)), mul(I, I))),
           mul(CAdd(mul(Real(a.im), Real(b.re)), mul(Real(a.re), Real(b.im))), I))
      == Complex(x - y, z + u)
  {
    var x, y, z, u := Times(a.re, b.re), Times(a.im, b.im), Times(a.im, b.re), Times(a.re, b.im);
    assert Times(y, -1.0) == -y;
    hide Times;
    assert mul(Real(y), Real(-1.0)) == Real(-y);
    assert CAdd(Real(z), Real(u)) == Real(z + u);
  }

  lemma ProductInParts(a: Complex, b: Complex)
    ensures COMPLEX.mul(a, b)
         == Complex(Times(a.re, b.re) - Times(a.im, b.im), Times(a.im, b.re) + Times(a.re, b.im))
  {}

  /** The kernels' product is the complex one. */
  lemma ComplexProduct()
    ensures IsCommutativeRing(COMPLEX) && IsComplexProduct(COMPLEX.mul)
    ensures forall a: Complex :: COMPLEX.mul(a, Complex(a.re, -a.im)) == Real(a.re * a.re + a.im * a.im)
  {
    hide IsCommutativeRing, CMul, Times;
    ComplexIsCommutativeRing();
    SquareOfI();
    forall r: real, s: real ensures CMul(Real(r), Real(s)) == Real(Times(r, s)) { RealTimes(r, s); }
    forall r: real ensures CMul(Real(r), I) == Complex(0.0, r) { RealTimes(r, 0.0); }
    forall a: Complex ensures CMul(a, Complex(a.re, -a.im)) == Real(a.re * a.re + a.im * a.im) {
      ConjugateProduct(a);
    }
  }

  lemma SquareOfI()
    ensures CMul(I, I) == Real(-1.0)
  {}

  lemma RealTimes(r: real, s: real)
    ensures CMul(Real(r), Real(s)) == Real(Times(r, s)) && CMul(Real(r), I) == Complex(0.0, r)
  {}

  /** A number times its conjugate is the square of its size. */
  lemma ConjugateProduct(a: Complex)
    ensures CMul(a, Complex(a.re, -a.im)) == Real(a.re * a.re + a.im * a.im)
  {}
}
