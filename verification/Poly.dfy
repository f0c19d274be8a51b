/** Polynomials over GF(2) as natural numbers, the coefficient of x^i in bit i: the ring that
    the bit-reversed registers are residues of. */
module Poly {
  import opened RingMath
  import opened Wire
  import opened Bits
  import opened Gf

  function Product(a: nat, b: nat): (r: nat)
    decreases a
  {
    if a == 0 then 0 else Xor(2 * Product(a / 2, b), if a % 2 == 1 then b else 0)
  }

  ghost predicate Divides(d: nat, a: nat) { exists k: nat :: Product(d, k) == a }

  lemma {:induction false} ProductZero(a: nat)
    ensures Product(a, 0) == 0
  {
    if a > 0 {
      ProductZero(a / 2);
    }
  }

  lemma {:induction false} ProductOne(a: nat)
    ensures Product(a, 1) == a && Product(1, a) == a
  {
    assert Product(0, a) == 0;
    XorZero(a);
    if a > 0 {
      ProductOne(a / 2);
      XorDisjoint(a % 2, a / 2, 1);
      XorComm(a % 2, a / 2 * 2);
      XorZero(2 * (a / 2));
    }
  }

  lemma ProductStep(a: nat, b: nat)
    ensures Product(a, b) == Xor(2 * Product(a / 2, b), if a % 2 == 1 then b else 0)
  {
    XorZero(0);
  }

  lemma ProductDoubleLeft(a: nat, b: nat)
    ensures Product(2 * a, b) == 2 * Product(a, b)
  {
    XorZero(2 * Product(a, b));
  }

  lemma {:induction false} ProductDouble(a: nat, b: nat)
    ensures Product(a, 2 * b) == 2 * Product(a, b)
    decreases a
  {
    if a > 0 {
      ProductDouble(a / 2, b);
      hide Xor;
      XorDouble(2 * Product(a / 2, b), if a % 2 == 1 then b else 0);
    }
  }

  lemma {:induction false} ProductRight(a: nat, b: nat, c: nat)
    ensures Product(a, Xor(b, c)) == Xor(Product(a, b), Product(a, c))
    decreases a
  {
    hide Xor;
    XorZero(0);
    if a > 0 {
      ProductRight(a / 2, b, c);
      XorDouble(Product(a / 2, b), Product(a / 2, c));
      XorSwap(2 * Product(a / 2, b), if a % 2 == 1 then b else 0, 2 * Product(a / 2, c), if a % 2 == 1 then c else 0);
    }
  }

  lemma ProductHalves(a: nat, b: nat)
    ensures Product(b, a) == Xor(2 * Product(b, a / 2), if a % 2 == 1 then b else 0)
  {
    hide Xor, Product;
    var h, l := 2 * (a / 2), a % 2;
    XorDisjoint(l, a / 2, 1);
    XorComm(l, a / 2 * 2);
    assert a == Xor(h, l) by { assert Pow2(1) == 2; }
    ProductRight(b, h, l);
    ProductDouble(b, a / 2);
    ProductOne(b);
    ProductZero(b);
  }

  lemma {:induction false} ProductComm(a: nat, b: nat)
    ensures Product(a, b) == Product(b, a)
    decreases a
  {
    hide Xor;
    if a == 0 {
      ProductZero(b);
    } else {
      ProductComm(a / 2, b);
      ProductHalves(a, b);
    }
  }

  lemma ProductLeft(a: nat, b: nat, c: nat)
    ensures Product(Xor(a, b), c) == Xor(Product(a, c), Product(b, c))
  {
    hide Xor, Product;
    ProductComm(Xor(a, b), c);
    ProductComm(a, c);
    ProductComm(b, c);
    ProductRight(c, a, b);
  }

  lemma {:induction false} ProductAssoc(a: nat, b: nat, c: nat)
    ensures Product(Product(a, b), c) == Product(a, Product(b, c))
    decreases a
  {
    hide Xor, Product;
    ProductStep(a, b);
    ProductStep(a, Product(b, c));
    ProductNone(b);
    ProductNone(Product(b, c));
    ProductNone(c);
    if a > 0 {
      ProductAssoc(a / 2, b, c);
      ProductLeft(2 * Product(a / 2, b), if a % 2 == 1 then b else 0, c);
      ProductDoubleLeft(Product(a / 2, b), c);
    }
  }

  lemma ProductNone(b: nat)
    ensures Product(0, b) == 0
  {
  }

  /** The constant terms multiply. */
  lemma ProductConstant(a: nat, b: nat)
    ensures Product(a, b) % 2 == 1 <==> a % 2 == 1 && b % 2 == 1
  {
    ProductStep(a, b);
    hide Product;
    XorHalf(2 * Product(a / 2, b), if a % 2 == 1 then b else 0);
  }

  // ---- degrees -------------------------------------------------------------------------

  /** `a` has degree `n`. */
  predicate HasDegree(a: nat, n: nat) { Pow2(n) <= a < Pow2(n + 1) }

  lemma {:induction false} DegreeExists(a: nat) returns (n: nat)
    requires a > 0
    ensures HasDegree(a, n)
  {
    if a == 1 {
      n := 0;
    } else {
      var m := DegreeExists(a / 2);
      n := m + 1;
    }
  }

  /** A smaller term leaves the leading one alone. */
  lemma {:induction false} LeadingTerm(a: nat, b: nat, n: nat)
    requires HasDegree(a, n) && b < Pow2(n)
    ensures HasDegree(Xor(a, b), n)
  {
    if n == 0 {
      XorZero(a);
    } else {
      XorHalf(a, b);
      hide Xor;
      LeadingTerm(a / 2, b / 2, n - 1);
    }
  }

  lemma {:induction false} DegreesAdd(a: nat, b: nat, n: nat, m: nat)
    requires HasDegree(a, n) && HasDegree(b, m)
    ensures HasDegree(Product(a, b), n + m)
    decreases n
  {
    hide Xor, Product;
    if n == 0 {
      assert a == 1;
      ProductOne(b);
    } else {
      DegreesAdd(a / 2, b, n - 1, m);
      ProductStep(a, b);
      Pow2Monotone(m + 1, n + m);
      LeadingTerm(2 * Product(a / 2, b), if a % 2 == 1 then b else 0, n + m);
    }
  }

  /** One has no divisor but itself. */
  lemma DividesOne(d: nat)
    requires Divides(d, 1)
    ensures d == 1
  {
    hide Product;
    var k: nat :| Product(d, k) == 1;
    ProductConstant(d, k);
    var n := DegreeExists(d);
    var m := DegreeExists(k);
    DegreesAdd(d, k, n, m);
  }

  // ---- divisibility --------------------------------------------------------------------

  lemma DividesSelf(a: nat)
    ensures Divides(a, a)
  {
    hide Product;
    ProductOne(a);
  }

  lemma DividesZero(d: nat)
    ensures Divides(d, 0)
  {
    hide Product;
    ProductZero(d);
  }

  lemma DividesMultiple(d: nat, q: nat, a: nat)
    requires Divides(d, a)
    ensures Divides(d, Product(q, a))
  {
    hide Product;
    var k: nat :| Product(d, k) == a;
    ProductComm(q, a);
    ProductAssoc(d, k, q);
  }

  lemma DividesSum(d: nat, a: nat, b: nat)
    requires Divides(d, a) && Divides(d, b)
    ensures Divides(d, Xor(a, b))
  {
    hide Product, Xor;
    var k: nat :| Product(d, k) == a;
    var l: nat :| Product(d, l) == b;
    ProductRight(d, k, l);
  }

  /** One step of Euclid's algorithm keeps the common divisors. */
  lemma CommonDivisors(d: nat, a: nat, b: nat, q: nat, r: nat)
    requires Xor(r, Product(q, b)) == a
    ensures Divides(d, a) && Divides(d, b) <==> Divides(d, b) && Divides(d, r)
  {
    hide Product, Xor, Divides;
    if Divides(d, b) {
      DividesMultiple(d, q, b);
      if Divides(d, r) {
        DividesSum(d, r, Product(q, b));
      }
      if Divides(d, a) {
        DividesSum(d, a, Product(q, b));
        XorCancel(r, Product(q, b));
      }
    }
  }

  /** A divisor with a constant term does not take a factor x. */
  lemma OddDivisor(d: nat, a: nat)
    requires d % 2 == 1 && Divides(d, 2 * a)
    ensures Divides(d, a)
  {
    hide Product;
    var k: nat :| Product(d, k) == 2 * a;
    ProductConstant(d, k);
    assert k == 2 * (k / 2);
    ProductDouble(d, k / 2);
  }

  // ---- registers as polynomials -------------------------------------------------------------

  /** The polynomial in an n-bit register. */
  function Rev(a: nat, n: nat): (r: nat)
    decreases n
  {
    if n == 0 then 0 else (if a % 2 == 1 then Pow2(n - 1) else 0) + Rev(a / 2, n - 1)
  }

  lemma {:induction false} RevBound(a: nat, n: nat)
    ensures Rev(a, n) < Pow2(n)
    decreases n
  {
    if n > 0 {
      RevBound(a / 2, n - 1);
    }
  }

  lemma RevStep(a: nat, n: nat)
    requires n > 0
    ensures Rev(a, n) == Xor(Rev(a / 2, n - 1), if a % 2 == 1 then Pow2(n - 1) else 0)
  {
    RevBound(a / 2, n - 1);
    XorDisjoint(Rev(a / 2, n - 1), if a % 2 == 1 then 1 else 0, n - 1);
  }

  lemma {:induction false} RevSum(a: nat, b: nat, n: nat)
    ensures Rev(Xor(a, b), n) == Xor(Rev(a, n), Rev(b, n))
    decreases n
  {
    XorZero(0);
    if n > 0 {
      RevSum(a / 2, b / 2, n - 1);
      XorHalf(a, b);
      RevStep(a, n);
      RevStep(b, n);
      RevStep(Xor(a, b), n);
      var p := Pow2(n - 1);
      XorSelf(p);
      XorZero(p);
      hide Xor, Rev;
      XorSwap(Rev(a / 2, n - 1), if a % 2 == 1 then p else 0, Rev(b / 2, n - 1), if b % 2 == 1 then p else 0);
    }
  }

  /** Different registers hold different polynomials. */
  lemma {:induction false} RevInjective(a: nat, b: nat, n: nat)
    requires a < Pow2(n) && b < Pow2(n) && Rev(a, n) == Rev(b, n)
    ensures a == b
    decreases n
  {
    if n > 0 {
      RevBound(a / 2, n - 1);
      RevBound(b / 2, n - 1);
      RevInjective(a / 2, b / 2, n - 1);
    }
  }

  lemma {:induction false} RevZero(n: nat)
    ensures Rev(0, n) == 0
  {
    if n > 0 {
      RevZero(n - 1);
    }
  }

  lemma {:induction false} RevExtend(v: nat, n: nat)
    requires n > 0 && v < Pow2(n - 1)
    ensures Rev(v, n) == 2 * Rev(v, n - 1)
    decreases n
  {
    if n > 1 {
      RevExtend(v / 2, n - 1);
    }
  }

  /** Shifting the register down multiplies by x, as long as nothing falls out. */
  lemma {:induction false} RevShift(v: nat, u: nat, n: nat)
    requires v * Pow2(u) < Pow2(n)
    ensures Rev(v, n) == Product(Pow2(u), Rev(v * Pow2(u), n))
    decreases u
  {
    hide Product, Rev;
    if u == 0 {
      ProductOne(Rev(v, n));
    } else {
      var w := v * Pow2(u - 1);
      assert v * Pow2(u) == 2 * w;
      RevShift(v, u - 1, n);
      RevDouble(w, n);
      ProductDouble(Pow2(u - 1), Rev(2 * w, n));
      ProductDoubleLeft(Pow2(u - 1), Rev(2 * w, n));
    }
  }

  lemma RevDouble(w: nat, n: nat)
    requires 2 * w < Pow2(n)
    ensures Rev(w, n) == 2 * Rev(2 * w, n)
  {
    if n > 0 {
      RevExtend(w, n);
    }
  }

  /** The register with one bit set. */
  lemma RevPower(u: nat, n: nat)
    requires u < n
    ensures Rev(Pow2(n - 1 - u), n) == Pow2(u)
  {
    hide Product;
    Pow2Add(n - 1 - u, u);
    RevShift(Pow2(n - 1 - u), u, n);
    RevOne(n);
    ProductOne(Pow2(u));
  }

  lemma {:induction false} RevOne(n: nat)
    requires n > 0
    ensures Rev(Pow2(n - 1), n) == 1
  {
    if n > 1 {
      RevOne(n - 1);
    } else {
      assert Pow2(0) == 1;
    }
  }

  /** The whole modulus, with its leading term. */
  function Full(f: Field): (r: nat) { Xor(Rev(f.P, f.D), Pow2(f.D)) }

  /** The step of the CRC loops is multiplication by x modulo the whole modulus. */
  lemma RevMulX(f: Field, b: nat)
    requires f.Valid() && f.Has(b)
    ensures Rev(MulX(f.P, b), f.D) == Xor(2 * Rev(b, f.D), if b % 2 == 1 then Full(f) else 0)
  {
    hide Xor, Rev;
    var n, h := f.D, b / 2;
    RevSum(h, if b % 2 == 1 then f.P else 0, n);
    RevZero(n);
    RevStep(b, n);
    RevExtend(h, n);
    XorZero(Rev(h, n - 1));
    XorZero(Rev(h, n));
    if b % 2 == 1 {
      XorDouble(Rev(h, n - 1), Pow2(n - 1));
      var x, t, p := Rev(h, n), Pow2(n), Rev(f.P, n);
      assert 2 * Rev(b, n) == Xor(x, t);
      XorComm(p, t);
      XorAssoc(x, t, Xor(t, p));
      XorCancel(p, t);
      XorZero(Xor(x, p));
    }
  }

  // ---- register arithmetic is polynomial arithmetic modulo P ------------------------------------

  ghost predicate Congruent(f: Field, x: nat, y: nat) { Divides(Full(f), Xor(x, y)) }

  lemma CongruentSelf(f: Field, x: nat)
    ensures Congruent(f, x, x)
  {
    hide Divides;
    XorSelf(x);
    DividesZero(Full(f));
  }

  lemma CongruentSum(f: Field, x: nat, y: nat, u: nat, v: nat)
    requires Congruent(f, x, y) && Congruent(f, u, v)
    ensures Congruent(f, Xor(x, u), Xor(y, v))
  {
    hide Divides, Xor;
    DividesSum(Full(f), Xor(x, y), Xor(u, v));
    XorSwap(x, y, u, v);
  }

  lemma CongruentTransitive(f: Field, x: nat, y: nat, z: nat)
    requires Congruent(f, x, y) && Congruent(f, y, z)
    ensures Congruent(f, x, z)
  {
    hide Divides, Xor;
    DividesSum(Full(f), Xor(x, y), Xor(y, z));
    XorAssoc(x, y, Xor(y, z));
    XorCancel(z, y);
  }

  /** The CRC step multiplies by x modulo P. */
  lemma MulXIsShift(f: Field, b: nat)
    requires f.Valid() && f.Has(b)
    ensures Congruent(f, Rev(MulX(f.P, b), f.D), 2 * Rev(b, f.D))
  {
    hide Divides, Xor, Rev, MulX;
    RevMulX(f, b);
    var m := if b % 2 == 1 then Full(f) else 0;
    XorComm(2 * Rev(b, f.D), m);
    XorCancel(m, 2 * Rev(b, f.D));
    DividesSelf(Full(f));
    DividesZero(Full(f));
  }

  lemma {:induction false} MulXnIsPower(f: Field, b: nat, n: nat)
    requires f.Valid() && f.Has(b)
    ensures Congruent(f, Rev(MulXn(f.P, b, n), f.D), Product(Pow2(n), Rev(b, f.D)))
    decreases n
  {
    hide Divides, Xor, Rev, MulX, Product, Congruent;
    if n == 0 {
      ProductOne(Rev(b, f.D));
      CongruentSelf(f, Rev(b, f.D));
    } else {
      var c, p := MulX(f.P, b), Pow2(n - 1);
      MulXBound(f.P, b, f.D);
      MulXnIsPower(f, c, n - 1);
      MulXIsShift(f, b);
      CongruentProduct(f, p, Rev(c, f.D), 2 * Rev(b, f.D));
      ProductDouble(p, Rev(b, f.D));
      ProductDoubleLeft(p, Rev(b, f.D));
      CongruentTransitive(f, Rev(MulXn(f.P, c, n - 1), f.D), Product(p, Rev(c, f.D)), Product(Pow2(n), Rev(b, f.D)));
    }
  }

  lemma CongruentProduct(f: Field, q: nat, x: nat, y: nat)
    requires Congruent(f, x, y)
    ensures Congruent(f, Product(q, x), Product(q, y))
  {
    hide Divides, Xor, Product;
    DividesMultiple(Full(f), q, Xor(x, y));
    ProductRight(q, x, y);
  }

  lemma {:induction false} MulIsProduct(f: Field, a: nat, b: nat, n: nat)
    requires f.Valid() && f.Has(b)
    ensures Congruent(f, Rev(Mul(f.P, a, b, n), f.D), Product(Rev(a, n), Rev(b, f.D)))
    decreases n
  {
    hide Divides, Xor, Rev, MulXn, Product, Congruent, Mul;
    var B := Rev(b, f.D);
    if n == 0 {
      MulNone(f.P, a, b);
      RevZero(f.D);
      RevNothing(a);
      ProductNone(B);
      CongruentSelf(f, 0);
    } else {
      MulStep(f.P, a, b, n);
      RevStep(a, n);
      MulIsProduct(f, a / 2, b, n - 1);
      var odd := a % 2 == 1;
      var t, p := if odd then MulXn(f.P, b, n - 1) else 0, if odd then Pow2(n - 1) else 0;
      ProductNone(B);
      RevZero(f.D);
      CongruentSelf(f, 0);
      MulXnIsPower(f, b, n - 1);
      RevSum(Mul(f.P, a / 2, b, n - 1), t, f.D);
      ProductLeft(Rev(a / 2, n - 1), p, B);
      CongruentSum(f, Rev(Mul(f.P, a / 2, b, n - 1), f.D), Product(Rev(a / 2, n - 1), B), Rev(t, f.D), Product(p, B));
    }
  }

  lemma RevNothing(a: nat)
    ensures Rev(a, 0) == 0
  {
  }

  /** The product of two registers is the product of their polynomials modulo P, reduced. */
  lemma TimesIsProduct(f: Field, a: nat, b: nat)
    requires f.Valid() && f.Has(a) && f.Has(b)
    ensures f.Has(f.Times(a, b)) && Rev(f.Times(a, b), f.D) < Pow2(f.D)
    ensures Congruent(f, Rev(f.Times(a, b), f.D), Product(Rev(a, f.D), Rev(b, f.D)))
  {
    hide Congruent, Mul, Rev;
    TimesClosed(f, a, b);
    RevBound(f.Times(a, b), f.D);
    MulIsProduct(f, a, b, f.D);
  }
}
