/** Arithmetic modulo a polynomial P of degree D over GF(2), in the bit-reversed form of the
    CRC code: the coefficient of x^i is bit D-1-i, and one is 2^(D-1).

    `MulX` is multiplication by x.  It is a linear map on bit strings of any length, and every
    fast CRC form is an identity between powers of it. */
module Gf {
  import opened RingMath
  import opened Wire
  import opened Bits

  /** b -> (b >> 1) ^ normalize[b & 1] */
  function MulX(P: nat, b: nat): (r: nat)
  {
    Xor(b / 2, if b % 2 == 1 then P else 0)
  }

  function MulXn(P: nat, b: nat, n: nat): (r: nat)
    decreases n
  {
    if n == 0 then b else MulXn(P, MulX(P, b), n - 1)
  }

  lemma MulXLinear(P: nat, a: nat, b: nat)
    ensures MulX(P, Xor(a, b)) == Xor(MulX(P, a), MulX(P, b))
  {
    XorHalf(a, b);
    XorSelf(P);
    XorZero(P);
    XorZero(0);
    hide Xor;
    var pa, pb := if a % 2 == 1 then P else 0, if b % 2 == 1 then P else 0;
    XorSwap(a / 2, pa, b / 2, pb);
  }

  lemma {:induction false} MulXnLinear(P: nat, a: nat, b: nat, n: nat)
    ensures MulXn(P, Xor(a, b), n) == Xor(MulXn(P, a, n), MulXn(P, b, n))
    decreases n
  {
    hide Xor, MulX;
    if n > 0 {
      MulXLinear(P, a, b);
      MulXnLinear(P, MulX(P, a), MulX(P, b), n - 1);
    }
  }

  lemma {:induction false} MulXnAdd(P: nat, b: nat, m: nat, n: nat)
    ensures MulXn(P, b, m + n) == MulXn(P, MulXn(P, b, m), n)
    decreases m
  {
    hide MulX;
    if m > 0 {
      MulXnAdd(P, MulX(P, b), m - 1, n);
    }
  }

  lemma {:induction false} MulXnZero(P: nat, n: nat)
    ensures MulXn(P, 0, n) == 0
  {
    if n > 0 {
      assert MulX(P, 0) == 0;
      MulXnZero(P, n - 1);
    }
  }

  /** Multiplying by x^k undoes a shift by k places: no reduction takes place. */
  lemma {:induction false} MulXnShift(P: nat, v: nat, k: nat)
    ensures MulXn(P, v * Pow2(k), k) == v
  {
    if k > 0 {
      var b := v * Pow2(k);
      assert b == 2 * (v * Pow2(k - 1));
      XorZero(v * Pow2(k - 1));
      assert MulX(P, b) == v * Pow2(k - 1);
      hide Xor;
      MulXnShift(P, v, k - 1);
    }
  }

  lemma MulXBound(P: nat, b: nat, n: nat)
    requires P < Pow2(n) && b < Pow2(n)
    ensures MulX(P, b) < Pow2(n)
  {
    XorBound(b / 2, if b % 2 == 1 then P else 0, n);
  }

  lemma {:induction false} MulXnBound(P: nat, b: nat, n: nat, k: nat)
    requires P < Pow2(n) && b < Pow2(n)
    ensures MulXn(P, b, k) < Pow2(n)
    decreases k
  {
    hide MulX;
    if k > 0 {
      MulXBound(P, b, n);
      MulXnBound(P, MulX(P, b), n, k - 1);
    }
  }

  /** A longer bit string loses a bit per step until it has the length of P. */
  lemma {:induction false} MulXnShrinks(P: nat, b: nat, d: nat, m: nat, n: nat)
    requires P < Pow2(d) && b < Pow2(m) && d <= m <= d + n
    ensures MulXn(P, b, n) < Pow2(d)
    decreases n
  {
    hide MulX, Xor;
    if m == d {
      MulXnBound(P, b, d, n);
    } else {
      MulXShrinks(P, b, d, m);
      MulXnShrinks(P, MulX(P, b), d, m - 1, n - 1);
    }
  }

  lemma MulXShrinks(P: nat, b: nat, d: nat, m: nat)
    requires P < Pow2(d) && b < Pow2(m) && d < m
    ensures MulX(P, b) < Pow2(m - 1)
  {
    hide Xor;
    Pow2Monotone(d, m - 1);
    XorBound(b / 2, if b % 2 == 1 then P else 0, m - 1);
  }

  // ---- multiplication ------------------------------------------------------------------

  /** The product of the polynomial in the n-bit register `a` with `b`: the sum of x^i * b
      over the coefficients of `a`. */
  function Mul(P: nat, a: nat, b: nat, n: nat): (r: nat)
    decreases n
  {
    if n == 0 then 0 else Xor(Mul(P, a / 2, b, n - 1), if a % 2 == 1 then MulXn(P, b, n - 1) else 0)
  }

  lemma {:induction false} MulLinearLeft(P: nat, a: nat, c: nat, b: nat, n: nat)
    ensures Mul(P, Xor(a, c), b, n) == Xor(Mul(P, a, b, n), Mul(P, c, b, n))
    decreases n
  {
    if n == 0 {
      XorZero(0);
    } else {
      MulLinearLeft(P, a / 2, c / 2, b, n - 1);
      XorHalf(a, c);
      var t := MulXn(P, b, n - 1);
      XorSelf(t);
      XorZero(t);
      XorZero(0);
      hide Xor, MulXn;
      XorSwap(Mul(P, a / 2, b, n - 1), if a % 2 == 1 then t else 0, Mul(P, c / 2, b, n - 1),
              if c % 2 == 1 then t else 0);
    }
  }

  lemma {:induction false} MulLinearRight(P: nat, a: nat, b: nat, d: nat, n: nat)
    ensures Mul(P, a, Xor(b, d), n) == Xor(Mul(P, a, b, n), Mul(P, a, d, n))
    decreases n
  {
    hide Xor, MulXn;
    if n == 0 {
      XorZero(0);
    } else {
      MulLinearRight(P, a / 2, b, d, n - 1);
      MulXnLinear(P, b, d, n - 1);
      XorZero(0);
      var u, v := MulXn(P, b, n - 1), MulXn(P, d, n - 1);
      XorSwap(Mul(P, a / 2, b, n - 1), if a % 2 == 1 then u else 0, Mul(P, a / 2, d, n - 1),
              if a % 2 == 1 then v else 0);
    }
  }

  /** Multiplying commutes with shifting the second factor. */
  lemma {:induction false} MulShift(P: nat, a: nat, b: nat, n: nat, k: nat)
    ensures Mul(P, a, MulXn(P, b, k), n) == MulXn(P, Mul(P, a, b, n), k)
    decreases n
  {
    hide Xor, MulXn;
    MulXnZero(P, k);
    if n > 0 {
      MulShift(P, a / 2, b, n - 1, k);
      MulXnAdd(P, b, k, n - 1);
      MulXnAdd(P, b, n - 1, k);
      MulXnLinear(P, Mul(P, a / 2, b, n - 1), if a % 2 == 1 then MulXn(P, b, n - 1) else 0, k);
    }
  }

  /** A product can be taken inside another one: the law behind commutativity. */
  lemma {:induction false} MulExchange(P: nat, a: nat, b: nat, n: nat, c: nat, m: nat)
    ensures Mul(P, c, Mul(P, a, b, n), m) == Mul(P, a, Mul(P, c, b, m), n)
    decreases n
  {
    hide Xor, MulXn;
    if n == 0 {
      MulZero(P, c, m);
    } else {
      MulExchange(P, a / 2, b, n - 1, c, m);
      MulLinearRight(P, c, Mul(P, a / 2, b, n - 1), if a % 2 == 1 then MulXn(P, b, n - 1) else 0, m);
      MulShift(P, c, b, m, n - 1);
      MulZero(P, c, m);
    }
  }

  lemma {:induction false} MulZero(P: nat, a: nat, n: nat)
    ensures Mul(P, a, 0, n) == 0
    decreases n
  {
    hide Xor, MulXn;
    if n > 0 {
      MulZero(P, a / 2, n - 1);
      MulXnZero(P, n - 1);
      XorZero(0);
    }
  }

  lemma {:induction false} MulBound(P: nat, a: nat, b: nat, n: nat, d: nat)
    requires P < Pow2(d) && b < Pow2(d)
    ensures Mul(P, a, b, n) < Pow2(d)
    decreases n
  {
    hide Xor, MulXn;
    if n > 0 {
      MulBound(P, a / 2, b, n - 1, d);
      MulXnBound(P, b, d, n - 1);
      XorBound(Mul(P, a / 2, b, n - 1), if a % 2 == 1 then MulXn(P, b, n - 1) else 0, d);
    }
  }

  /** Times one, on the n highest coefficients. */
  lemma {:induction false} MulUnit(P: nat, a: nat, n: nat, m: nat)
    requires n <= m + 1 && a < Pow2(n)
    ensures Mul(P, a, Pow2(m), n) == a * Pow2(m + 1 - n)
    decreases n
  {
    if n > 0 {
      var k := m + 1 - n;
      MulUnit(P, a / 2, n - 1, m);
      Pow2Add(n - 1, k);
      assert Pow2(m) == Pow2(k) * Pow2(n - 1);
      MulXnShift(P, Pow2(k), n - 1);
      hide Xor, MulXn, Mul;
      assert MulXn(P, Pow2(m), n - 1) == Pow2(k);
      UnitStep(a, k);
      assert Mul(P, a, Pow2(m), n) == Xor(Mul(P, a / 2, Pow2(m), n - 1), if a % 2 == 1 then Pow2(k) else 0) by {
        MulStep(P, a, Pow2(m), n);
      }
    }
  }

  lemma MulNone(P: nat, a: nat, b: nat)
    ensures Mul(P, a, b, 0) == 0
  {
  }

  lemma MulStep(P: nat, a: nat, b: nat, n: nat)
    requires n > 0
    ensures Mul(P, a, b, n) == Xor(Mul(P, a / 2, b, n - 1), if a % 2 == 1 then MulXn(P, b, n - 1) else 0)
  {
  }

  lemma UnitStep(a: nat, k: nat)
    ensures Xor((a / 2) * Pow2(k + 1), if a % 2 == 1 then Pow2(k) else 0) == a * Pow2(k)
  {
    hide Xor;
    var h, p := a / 2, Pow2(k);
    assert h * Pow2(k + 1) == (2 * h) * p;
    if a % 2 == 1 {
      XorDisjoint(p, h, k + 1);
      XorComm(p, h * Pow2(k + 1));
      assert (2 * h) * p + p == (2 * h + 1) * p;
    } else {
      XorZero(h * Pow2(k + 1));
    }
  }

  // ---- the ring laws ---------------------------------------------------------------------

  /** Polynomials of degree below D, and P + x^D. */
  datatype Field = Field(P: nat, D: nat) {
    predicate Valid() { 8 <= D && P < Pow2(D) }
    function One(): nat requires D > 0 { Pow2(D - 1) }
    predicate Has(a: nat) { a < Pow2(D) }
    function Times(a: nat, b: nat): nat { Mul(P, a, b, D) }
    function Xpow(n: nat): nat requires D > 0 { MulXn(P, One(), n) }
  }

  lemma TimesClosed(f: Field, a: nat, b: nat)
    requires f.Valid() && f.Has(b)
    ensures f.Has(f.Times(a, b))
  {
    MulBound(f.P, a, b, f.D, f.D);
  }

  lemma TimesOne(f: Field, a: nat)
    requires f.Valid() && f.Has(a)
    ensures f.Times(a, f.One()) == a
  {
    MulUnit(f.P, a, f.D, f.D - 1);
  }

  lemma TimesComm(f: Field, a: nat, b: nat)
    requires f.Valid() && f.Has(a) && f.Has(b)
    ensures f.Times(a, b) == f.Times(b, a)
  {
    TimesOne(f, a);
    TimesOne(f, b);
    MulExchange(f.P, b, f.One(), f.D, a, f.D);
  }

  lemma TimesAssoc(f: Field, a: nat, b: nat, c: nat)
    requires f.Valid() && f.Has(a) && f.Has(b) && f.Has(c)
    ensures f.Times(f.Times(a, b), c) == f.Times(a, f.Times(b, c))
  {
    hide Mul;
    TimesClosed(f, a, b);
    TimesComm(f, f.Times(a, b), c);
    MulExchange(f.P, a, b, f.D, c, f.D);
    TimesComm(f, c, b);
  }

  lemma TimesDistributes(f: Field, a: nat, b: nat, c: nat)
    ensures f.Times(a, Xor(b, c)) == Xor(f.Times(a, b), f.Times(a, c))
    ensures f.Times(Xor(a, b), c) == Xor(f.Times(a, c), f.Times(b, c))
  {
    MulLinearRight(f.P, a, b, c, f.D);
    MulLinearLeft(f.P, a, b, c, f.D);
  }

  lemma OneIn(f: Field)
    requires f.Valid()
    ensures f.Has(f.One())
  {
  }

  lemma XpowIn(f: Field, n: nat)
    requires f.Valid()
    ensures f.Has(f.Xpow(n))
  {
    MulXnBound(f.P, f.One(), f.D, n);
  }

  /** Multiplying by a power of x is shifting. */
  lemma TimesXpow(f: Field, a: nat, n: nat)
    requires f.Valid() && f.Has(a)
    ensures f.Times(a, f.Xpow(n)) == MulXn(f.P, a, n)
  {
    hide Mul, MulXn;
    MulShift(f.P, a, f.One(), f.D, n);
    TimesOne(f, a);
  }

  lemma XpowAdd(f: Field, m: nat, n: nat)
    requires f.Valid()
    ensures f.Times(f.Xpow(m), f.Xpow(n)) == f.Xpow(m + n)
  {
    hide Mul, MulXn;
    XpowIn(f, m);
    TimesXpow(f, f.Xpow(m), n);
    MulXnAdd(f.P, f.One(), m, n);
  }
}
