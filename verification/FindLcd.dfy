/** Division with remainder and the extended Euclidean algorithm on bit-reversed registers. */
module FindLcd {
  import opened RingMath
  import opened Wire
  import opened Bits
  import opened Gf
  import opened Crc
  import opened GfUtil
  import opened Poly

  /** The number of zero bits at the low end: the degree of the polynomial, counted down. */
  function LowZeros(a: nat): (n: nat)
    requires a > 0
  {
    if a % 2 == 1 then 0 else 1 + LowZeros(a / 2)
  }

  lemma {:induction false} LowZerosBound(a: nat, n: nat)
    requires 0 < a < Pow2(n)
    ensures LowZeros(a) < n
  {
    if a % 2 == 0 {
      LowZerosBound(a / 2, n - 1);
    }
  }

  lemma {:induction false} LowZerosShift(v: nat, t: nat)
    requires v > 0
    ensures v * Pow2(t) > 0 && LowZeros(v * Pow2(t)) == t + LowZeros(v)
  {
    if t > 0 {
      LowZerosShift(v, t - 1);
      assert v * Pow2(t) == 2 * (v * Pow2(t - 1));
    }
  }

  /** A multiple of 2^t has at least t low zeros. */
  lemma LowZerosMultiple(v: nat, t: nat)
    requires v * Pow2(t) > 0
    ensures LowZeros(v * Pow2(t)) >= t
  {
    assert v == 0 ==> v * Pow2(t) == 0;
    LowZerosShift(v, t);
  }

  // ---- division ------------------------------------------------------------------------

  /** The value divided: a register and, if `lead`, the term x^D. */
  function Dividend(f: Field, a: nat, lead: bool): (r: nat)
  {
    Xor(Rev(a, f.D), if lead then Pow2(f.D) else 0)
  }

  /** Its residue. */
  function Residue(f: Field, a: nat, lead: bool): (r: nat)
  {
    Xor(a, if lead then f.P else 0)
  }

  /** So far divided: quotient and remainder give the dividend, as polynomials and as residues. */
  ghost predicate Divided(f: Field, a: nat, lead: bool, divisor: nat, q: nat, r: nat)
  {
    && f.Has(q) && f.Has(r)
    && Xor(Rev(r, f.D), Product(Rev(q, f.D), Rev(divisor, f.D))) == Dividend(f, a, lead)
    && Xor(r, f.Times(q, divisor)) == Residue(f, a, lead)
  }

  /** The divisor times x^u, as long as its degree stays below D. */
  lemma Multiple(f: Field, v: nat, u: nat, b: nat)
    requires f.Valid() && f.Has(b) && b == v * Pow2(u) && u < f.D
    ensures f.Has(v) && f.Has(Pow2(f.D - 1 - u))
    ensures Rev(v, f.D) == Product(Rev(Pow2(f.D - 1 - u), f.D), Rev(b, f.D))
    ensures v == f.Times(Pow2(f.D - 1 - u), b)
  {
    hide Product, Rev, Mul, MulXn;
    RevShift(v, u, f.D);
    RevPower(u, f.D);
    var c := Pow2(f.D - 1 - u);
    Pow2Add(f.D - 1 - u, u);
    MulXnShift(f.P, c, u);
    assert f.Xpow(u) == c;
    Pow2Monotone(f.D - 1 - u, f.D - 1);
    MulXnShift(f.P, v, u);
    TimesXpow(f, b, u);
    TimesComm(f, c, b);
    Quotient(v, u, b);
  }

  lemma Quotient(v: nat, u: nat, b: nat)
    requires b == v * Pow2(u)
    ensures v <= b
  {
    assert v * Pow2(u) == v + v * (Pow2(u) - 1);
  }

  /** Subtracting c * divisor from the remainder and adding c to the quotient. */
  lemma Subtract(f: Field, a: nat, lead: bool, divisor: nat, q: nat, r: nat, c: nat, v: nat)
    requires f.Valid() && f.Has(c) && f.Has(v)
    requires Divided(f, a, lead, divisor, q, r)
    requires Rev(v, f.D) == Product(Rev(c, f.D), Rev(divisor, f.D)) && v == f.Times(c, divisor)
    ensures Divided(f, a, lead, divisor, Xor(q, c), Xor(r, v))
  {
    hide Xor, Product, Rev, Mul, Pow2;
    XorBound(q, c, f.D);
    XorBound(r, v, f.D);
    TimesDistributes(f, q, c, divisor);
    RevSum(q, c, f.D);
    RevSum(r, v, f.D);
    var b := Rev(divisor, f.D);
    ProductLeft(Rev(q, f.D), Rev(c, f.D), b);
    XorTwice(r, f.Times(q, divisor), v);
    XorTwice(Rev(r, f.D), Product(Rev(q, f.D), b), Rev(v, f.D));
  }

  lemma XorTwice(a: nat, b: nat, v: nat)
    ensures Xor(Xor(a, v), Xor(b, v)) == Xor(a, b)
  {
    hide Xor;
    XorSwap(a, v, b, v);
    XorSelf(v);
    XorZero(Xor(a, b));
  }

  /** Nothing divided yet. */
  lemma NothingDivided(f: Field, a: nat, divisor: nat)
    requires f.Valid() && f.Has(a)
    ensures Divided(f, a, false, divisor, 0, a)
  {
    hide Xor, Rev;
    RevZero(f.D);
    ProductNone(Rev(divisor, f.D));
    MulZeroLeft(f.P, divisor, f.D);
    XorZero(Rev(a, f.D));
    XorZero(a);
  }

  /** The leading term x^D is cancelled by x^(t+1) times the divisor. */
  lemma CancelLead(f: Field, a: nat, v: nat, t: nat, divisor: nat)
    requires f.Valid() && f.Has(a) && f.Has(divisor) && v % 2 == 1 && divisor == v * Pow2(t) && t < f.D - 1
    ensures Divided(f, a, true, divisor, Pow2(f.D - 1 - t) / 2, Xor(a, v / 2))
  {
    hide Xor, Rev, Mul, MulX, MulXn, Product;
    var d, c := f.D, Pow2(f.D - 2 - t);
    assert Pow2(d - 1 - t) / 2 == c;
    Multiple(f, v, t, divisor);
    var high := Pow2(d - 1 - t);
    Pow2Monotone(d - 2 - t, d - 1);
    // residues: x times v is v / 2 + P
    XpowNext(f, t);
    XpowIs(f, t);
    XpowIs(f, t + 1);
    assert f.Times(c, divisor) == MulX(f.P, v) by {
      TimesComm(f, c, divisor);
      TimesComm(f, high, divisor);
      TimesXpow(f, divisor, t);
      TimesXpow(f, divisor, t + 1);
      MulXnLast(f.P, divisor, t);
    }
    MulXOdd(f.P, v);
    XorBound(a, v / 2, d);
    XorTwice(a, f.P, v / 2);
    XorComm(v / 2, f.P);
    // polynomials: the degrees
    RevPower(t + 1, d);
    RevPower(t, d);
    var b := Rev(divisor, d);
    ProductDoubleLeft(Pow2(t), b);
    assert Product(Rev(c, d), b) == 2 * Rev(v, d);
    RevMulX(f, v);
    RevSum(v / 2, f.P, d);
    RevSum(a, v / 2, d);
    LeadGone(Rev(a, d), Rev(v / 2, d), Rev(f.P, d), Pow2(d), 2 * Rev(v, d));
  }

  lemma XpowIs(f: Field, u: nat)
    requires f.Valid() && u < f.D
    ensures f.Xpow(u) == Pow2(f.D - 1 - u)
  {
    Pow2Add(f.D - 1 - u, u);
    MulXnShift(f.P, Pow2(f.D - 1 - u), u);
  }

  lemma MulXnLast(P: nat, b: nat, n: nat)
    ensures MulXn(P, b, n + 1) == MulX(P, MulXn(P, b, n))
  {
    MulXnAdd(P, b, n, 1);
    var m := MulXn(P, b, n);
    assert MulXn(P, m, 1) == MulXn(P, MulX(P, m), 0);
  }

  lemma XpowNext(f: Field, n: nat)
    requires f.Valid()
    ensures f.Xpow(n + 1) == MulX(f.P, f.Xpow(n))
  {
    MulXnLast(f.P, f.One(), n);
  }

  lemma MulXOdd(P: nat, v: nat)
    requires v % 2 == 1
    ensures MulX(P, v) == Xor(v / 2, P)
  {
  }

  lemma LeadGone(a: nat, h: nat, p: nat, lead: nat, twice: nat)
    requires Xor(h, p) == Xor(twice, Xor(p, lead))
    ensures Xor(Xor(a, h), twice) == Xor(a, lead)
  {
    hide Xor;
    var full := Xor(p, lead);
    XorCancel(twice, full);
    assert twice == Xor(Xor(h, p), full);
    XorAssoc(h, p, full);
    XorCancel(lead, p);
    assert Xor(p, full) == lead;
    XorAssoc(a, h, Xor(h, lead));
    XorCancel(lead, h);
  }

  /** Whether bit `s` is set. */
  function Bit(a: nat, s: nat): (r: bool) { a / Pow2(s) % 2 == 1 }

  /** Clearing the lowest bit that may be set. */
  lemma ClearBit(r: nat, k: nat, s: nat, v: nat, o: nat)
    requires r == k * Pow2(s) && v == o * Pow2(s) && o % 2 == 1
    ensures Bit(r, s) <==> k % 2 == 1
    ensures Bit(r, s) ==> Xor(r, v) == (Xor(k, o) / 2) * Pow2(s + 1)
    ensures !Bit(r, s) ==> r == (k / 2) * Pow2(s + 1)
  {
    var p := Pow2(s);
    RemainderUnique(r, p, k, 0);
    hide Xor;
    XorScaled(k, o, s);
    XorHalf(k, o);
    HalfTwice(Xor(k, o), s);
    HalfTwice(k, s);
  }

  lemma HalfTwice(k: nat, s: nat)
    ensures k % 2 == 0 ==> k * Pow2(s) == (k / 2) * Pow2(s + 1)
  {
    if k % 2 == 0 {
      var h, p := k / 2, Pow2(s);
      assert (2 * h) * p == h * (2 * p);
    }
  }

  lemma {:induction false} XorScaled(a: nat, b: nat, s: nat)
    ensures Xor(a * Pow2(s), b * Pow2(s)) == Xor(a, b) * Pow2(s)
  {
    hide Xor;
    if s > 0 {
      XorScaled(a, b, s - 1);
      var p := Pow2(s - 1);
      XorDouble(a * p, b * p);
      assert a * (2 * p) == 2 * (a * p) && b * (2 * p) == 2 * (b * p);
      assert Xor(a, b) * (2 * p) == 2 * (Xor(a, b) * p);
    }
  }

  /** Long division.  `q` and `r` give back the dividend, and `r` has a lower degree than the
      divisor, that is, more low zeros.  The quotient of x^D by one would not fit. */
  method Divide(f: Field, a: nat, lead: bool, divisor0: nat) returns (q: nat, r: nat)
    requires f.Valid() && f.Has(a) && f.Has(divisor0) && divisor0 > 0
    requires lead ==> divisor0 != f.One()
    ensures Divided(f, a, lead, divisor0, q, r)
    ensures r > 0 ==> LowZeros(r) > LowZeros(divisor0)
  {
    hide Xor, Rev, Mul, Product, Divided, Bit;
    var divisor, coef := divisor0, f.One();
    ghost var t: nat := 0;
    while divisor % 2 == 0
      invariant 0 < divisor && t < f.D && divisor0 == divisor * Pow2(t) && coef == Pow2(f.D - 1 - t)
      decreases divisor
    {
      HalfTwice(divisor, t);
      LowZerosStep(f, divisor0, divisor, t);
      divisor, coef := divisor / 2, coef / 2;
      t := t + 1;
    }
    LowZerosShift(divisor, t);
    assert LowZeros(divisor0) == t;
    ghost var odd := divisor;
    r, q := a, 0;
    if lead {
      NotOne(f, divisor, t, divisor0);
      CancelLead(f, a, divisor, t, divisor0);
      q := coef / 2;
      r := Xor(r, divisor / 2);
    } else {
      NothingDivided(f, a, divisor0);
    }
    q, r := Subtractions(f, a, lead, divisor0, q, r, divisor, coef, t);
  }

  /** The second loop of the division: subtract multiples of the divisor, highest first. */
  method Subtractions(f: Field, ghost a: nat, ghost lead: bool, ghost divisor0: nat, q0: nat, r0: nat, divisor1: nat,
                      coef1: nat, ghost t: nat)
    returns (q: nat, r: nat)
    requires f.Valid() && f.Has(divisor0) && t < f.D && divisor1 % 2 == 1 && divisor0 == divisor1 * Pow2(t)
    requires coef1 == Pow2(f.D - 1 - t) && Divided(f, a, lead, divisor0, q0, r0)
    ensures Divided(f, a, lead, divisor0, q, r)
    ensures r > 0 ==> LowZeros(r) > t
  {
    hide Xor, Rev, Mul, Product, Divided, Bit;
    q, r := q0, r0;
    var divisor, coef := divisor1, coef1;
    var mask: nat := 1;
    ghost var s: nat := 0;
    ghost var k: nat := r;
    while true
      invariant s <= t && mask == Pow2(s) && divisor == divisor1 * Pow2(s) && coef == Pow2(f.D - 1 - (t - s))
      invariant r == k * Pow2(s)
      invariant Divided(f, a, lead, divisor0, q, r)
      decreases t - s
    {
      ScaleUp(divisor1, s, t, divisor0);
      Multiple(f, divisor, t - s, divisor0);
      ClearBit(r, k, s, divisor, divisor1);
      if r / mask % 2 == 1 {
        BitIs(r, s);
        Subtract(f, a, lead, divisor0, q, r, coef, divisor);
        k := Xor(k, divisor1) / 2;
        r := Xor(r, divisor);
        q := Xor(q, coef);
      } else {
        BitIs(r, s);
        k := k / 2;
      }
      SameExponent(f.D - 1 - (t - s), f.D - 1);
      if coef == f.One() {
        break;
      }
      DoubleShift(divisor1, s);
      coef, mask, divisor := 2 * coef, 2 * mask, 2 * divisor;
      s := s + 1;
    }
    assert s == t;
    if r > 0 {
      LowZerosMultiple(k, t + 1);
    }
  }

  lemma BitIs(a: nat, s: nat)
    ensures Bit(a, s) <==> a / Pow2(s) % 2 == 1
  {
  }

  lemma DoubleShift(v: nat, s: nat)
    ensures 2 * (v * Pow2(s)) == v * Pow2(s + 1)
  {
    var p := Pow2(s);
    assert v * (2 * p) == 2 * (v * p);
  }

  lemma ScaleUp(v: nat, s: nat, t: nat, b: nat)
    requires s <= t && b == v * Pow2(t)
    ensures b == (v * Pow2(s)) * Pow2(t - s)
  {
    Pow2Add(s, t - s);
    assert v * (Pow2(s) * Pow2(t - s)) == (v * Pow2(s)) * Pow2(t - s);
  }

  lemma SameExponent(a: nat, b: nat)
    requires a <= b
    ensures Pow2(a) == Pow2(b) <==> a == b
  {
    if a < b {
      Pow2Monotone(a + 1, b);
    }
  }

  lemma LowZerosStep(f: Field, divisor0: nat, v: nat, t: nat)
    requires f.Has(divisor0) && v > 0 && v % 2 == 0 && divisor0 == v * Pow2(t) && t < f.D
    ensures t + 1 < f.D && Pow2(f.D - 1 - t) / 2 == Pow2(f.D - 2 - t)
  {
    LowZerosShift(v, t);
    LowZerosBound(divisor0, f.D);
  }

  lemma NotOne(f: Field, v: nat, t: nat, divisor0: nat)
    requires f.Has(divisor0) && divisor0 == v * Pow2(t) && t < f.D && v > 0 && divisor0 != Pow2(f.D - 1)
    ensures t < f.D - 1
  {
    MultipleBounds(v, Pow2(t));
    assert v == 1 ==> v * Pow2(t) == Pow2(t);
  }

  // ---- Euclid --------------------------------------------------------------------------

  /** `g` is the greatest common divisor of `a` and the whole modulus: its divisors are
      exactly the common ones. */
  ghost predicate IsGcd(f: Field, a: nat, g: nat)
  {
    forall d :: Divides(d, Rev(g, f.D)) <==> Divides(d, Rev(a, f.D)) && Divides(d, Full(f))
  }

  /** The state of the algorithm has the same common divisors as its input. */
  ghost predicate SameCommon(f: Field, a: nat, r0: nat, lead: bool, r1: nat)
  {
    forall d :: Divides(d, Dividend(f, r0, lead)) && Divides(d, Rev(r1, f.D))
                <==> Divides(d, Rev(a, f.D)) && Divides(d, Full(f))
  }

  lemma CommonKept(f: Field, a: nat, r0: nat, lead: bool, r1: nat, q: nat, r: nat)
    requires SameCommon(f, a, r0, lead, r1) && Divided(f, r0, lead, r1, q, r)
    ensures SameCommon(f, a, r1, false, r)
    ensures r == 0 ==> IsGcd(f, a, r1)
  {
    hide Xor, Rev, Mul, Product, Divides;
    XorZero(Rev(r1, f.D));
    RevZero(f.D);
    forall d
      ensures Divides(d, Rev(r1, f.D)) && Divides(d, Rev(r, f.D)) <==> Divides(d, Rev(a, f.D)) && Divides(d, Full(f))
    {
      CommonDivisors(d, Dividend(f, r0, lead), Rev(r1, f.D), Rev(q, f.D), Rev(r, f.D));
    }
    forall d
      ensures Divides(d, 0)
    {
      DividesZero(d);
    }
  }

  /** The cofactor of the next remainder. */
  lemma NextCofactor(f: Field, a: nat, b0: nat, b1: nat, r0: nat, lead: bool, r1: nat, q: nat, r: nat)
    requires f.Valid() && f.Has(a) && f.Has(b0) && f.Has(b1) && f.Has(r1)
    requires f.Times(a, b1) == r1 && f.Times(a, b0) == Residue(f, r0, lead)
    requires Divided(f, r0, lead, r1, q, r)
    ensures var b := Xor(b0, f.Times(q, b1)); f.Has(b) && f.Times(a, b) == r
  {
    hide Xor, Rev, Mul, Product, Pow2;
    var m := f.Times(q, b1);
    TimesClosed(f, q, b1);
    XorBound(b0, m, f.D);
    TimesDistributes(f, a, b0, m);
    MulExchange(f.P, q, b1, f.D, a, f.D);
    XorCancel(r, f.Times(q, r1));
  }

  /** The greatest common divisor of `a` and the modulus, and a multiple of `a` that equals it
      modulo P.  For a = 0 the divisor is the modulus itself, whose residue is 0. */
  method FindLCD(f: Field, a: nat) returns (g: nat, b: nat)
    requires f.Valid() && f.Has(a)
    ensures f.Has(b) && f.Times(a, b) == g
    ensures a == 0 ==> g == 0
    ensures a != 0 ==> 0 < g && f.Has(g) && IsGcd(f, a, g)
  {
    hide Xor, Rev, Mul, Product, Divides, Divided, SameCommon, IsGcd;
    if a == 0 || a == f.One() {
      SmallLcd(f, a);
      return a, a;
    }
    var r0, lead, b0 := f.P, true, 0;
    var r1, b1 := a, f.One();
    TimesOne(f, a);
    MulZero(f.P, a, f.D);
    XorSelf(f.P);
    StartsCommon(f, a);
    while true
      invariant f.Has(r0) && f.Has(r1) && f.Has(b0) && f.Has(b1) && r1 > 0
      invariant lead ==> r1 != f.One()
      invariant f.Times(a, b1) == r1 && f.Times(a, b0) == Residue(f, r0, lead)
      invariant SameCommon(f, a, r0, lead, r1)
      decreases f.D - LowZeros(r1)
    {
      var q, r := Divide(f, r0, lead, r1);
      CommonKept(f, a, r0, lead, r1, q, r);
      if r == 0 {
        break;
      }
      NextCofactor(f, a, b0, b1, r0, lead, r1, q, r);
      DividedHas(f, r0, lead, r1, q, r);
      LowZerosBound(r1, f.D);
      XorZero(r1);
      lead := false;
      r0, r1 := r1, r;
      var m := Multiply(f, q, b1);
      b0, b1 := b1, Xor(b0, m);
    }
    return r1, b1;
  }

  lemma DividedHas(f: Field, a: nat, lead: bool, divisor: nat, q: nat, r: nat)
    requires Divided(f, a, lead, divisor, q, r)
    ensures f.Has(q) && f.Has(r)
  {
  }

  lemma StartsCommon(f: Field, a: nat)
    ensures SameCommon(f, a, f.P, true, a)
  {
    hide Divides;
  }

  /** Zero and one are their own answers. */
  lemma SmallLcd(f: Field, a: nat)
    requires f.Valid() && (a == 0 || a == f.One())
    ensures f.Times(a, a) == a && f.Has(a)
    ensures a != 0 ==> IsGcd(f, a, a)
  {
    hide Xor, Mul, Product, Divides, Rev;
    MulZero(f.P, a, f.D);
    TimesOne(f, f.One());
    RevOne(f.D);
    if a != 0 {
      forall d
        ensures Divides(d, 1) ==> Divides(d, Full(f))
      {
        if Divides(d, 1) {
          DividesMultiple(d, Full(f), 1);
          ProductOne(Full(f));
        }
      }
    }
  }

  // ---- inverses of powers of x ---------------------------------------------------------------

  lemma FullConstant(f: Field)
    requires f.Valid()
    ensures Full(f) % 2 == 1 <==> f.P >= f.One()
  {
    hide Xor, Rev;
    XorHalf(Rev(f.P, f.D), Pow2(f.D));
    RevConstant(f.P, f.D);
    assert Pow2(f.D) == 2 * Pow2(f.D - 1);
  }

  lemma {:induction false} RevConstant(a: nat, n: nat)
    requires n > 0 && a < Pow2(n)
    ensures Rev(a, n) % 2 == 1 <==> a >= Pow2(n - 1)
    decreases n
  {
    if n > 1 {
      RevConstant(a / 2, n - 1);
    }
  }

  /** With a constant term in P, a common divisor of P and a power of x is 1. */
  lemma {:induction false} PowerCoprime(f: Field, n: nat, d: nat)
    requires f.Valid() && f.P >= f.One()
    requires Divides(d, Rev(f.Xpow(n), f.D)) && Divides(d, Full(f))
    ensures d == 1
  {
    hide Xor, Product, Rev, MulX, MulXn, Divides;
    FullConstant(f);
    if n == 0 {
      MulXnNone(f.P, f.One());
      RevOne(f.D);
      DividesOne(d);
    } else {
      var b := f.Xpow(n - 1);
      XpowNext(f, n - 1);
      XpowIn(f, n - 1);
      RevMulX(f, b);
      OddDivisorOf(d, Full(f));
      var m := if b % 2 == 1 then Full(f) else 0;
      DividesZero(d);
      DividesSum(d, Rev(f.Xpow(n), f.D), m);
      XorCancel(2 * Rev(b, f.D), m);
      OddDivisor(d, Rev(b, f.D));
      PowerCoprime(f, n - 1, d);
    }
  }

  lemma OddDivisorOf(d: nat, a: nat)
    requires a % 2 == 1 && Divides(d, a)
    ensures d % 2 == 1
  {
    hide Product;
    var k: nat :| Product(d, k) == a;
    ProductConstant(d, k);
  }

  /** Then the algorithm finds one. */
  lemma GcdOfPower(f: Field, n: nat, g: nat)
    requires f.Valid() && f.P >= f.One() && f.Has(g) && IsGcd(f, f.Xpow(n), g)
    ensures g == f.One()
  {
    hide Xor, Product, Rev, MulX, MulXn, Divides;
    DividesSelf(Rev(g, f.D));
    PowerCoprime(f, n, Rev(g, f.D));
    RevOne(f.D);
    RevInjective(g, f.One(), f.D);
  }

  /** Without a constant term no positive power of x has an inverse. */
  lemma NoInverse(f: Field, n: nat, b: nat)
    requires f.Valid() && f.P < f.One() && n > 0 && f.Has(b)
    ensures f.Times(f.Xpow(n), b) != f.One()
  {
    hide Mul, MulXn, Xor;
    XpowIn(f, n);
    TimesComm(f, f.Xpow(n), b);
    TimesXpow(f, b, n);
    MulXnLast(f.P, b, n - 1);
    var m := MulXn(f.P, b, n - 1);
    MulXnBound(f.P, b, f.D, n - 1);
    XorBound(m / 2, if m % 2 == 1 then f.P else 0, f.D - 1);
  }
}
