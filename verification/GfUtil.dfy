/** The loops that compute in the field: multiplication, powers of x, the tables they need. */
module GfUtil {
  import opened RingMath
  import opened Wire
  import opened Bits
  import opened Gf
  import opened Crc

  /** a ^ (a - 1) on an unsigned 64-bit word: ones up to the lowest set bit. */
  function LowMask(a: nat): (m: nat)
  {
    if a == 0 then WORD - 1 else Xor(a, a - 1)
  }

  /** Taking the highest bit off the first factor. */
  lemma {:induction false} MulTop(P: nat, a: nat, b: nat, n: nat)
    requires n > 0 && a < Pow2(n)
    ensures var top := a >= Pow2(n - 1);
            Mul(P, a, b, n) == Xor(if top then b else 0, Mul(P, if top then a - Pow2(n - 1) else a, MulX(P, b), n - 1))
    decreases n
  {
    hide Xor, MulX, Mul;
    var top := a >= Pow2(n - 1);
    var rest := if top then a - Pow2(n - 1) else a;
    MulStep(P, a, b, n);
    if n == 1 {
      MulNone(P, a / 2, b);
      MulNone(P, rest, MulX(P, b));
      XorComm(0, if top then b else 0);
    } else {
      MulTop(P, a / 2, b, n - 1);
      MulStep(P, rest, MulX(P, b), n - 1);
      var low := if a % 2 == 1 then MulXn(P, b, n - 1) else 0;
      var rest2 := if top then a / 2 - Pow2(n - 2) else a / 2;
      assert rest2 == rest / 2 && rest % 2 == a % 2;
      XorAssoc(if top then b else 0, Mul(P, rest2, MulX(P, b), n - 2), low);
    }
  }

  /** Shift-and-add multiplication.  The factors are swapped first if that saves rounds. */
  method Multiply(f: Field, aa: nat, bb: nat) returns (product: nat)
    requires f.Valid() && f.Has(aa) && f.Has(bb)
    ensures product == f.Times(aa, bb)
  {
    hide Xor, Mul, MulX;
    var a: nat, b: nat := aa, bb;
    if LowMask(a) < LowMask(b) {
      a, b := b, a;
    }
    TimesComm(f, aa, bb);
    MulZeroLeft(f.P, b, f.D);
    if a == 0 {
      return a;
    }
    product := 0;
    var one := f.One();
    XorZero(f.Times(a, b));
    ghost var n: nat, rest: nat := f.D, a;
    while a != 0
      invariant n <= f.D && rest < Pow2(n)
      invariant a == rest * Pow2(f.D - n)
      invariant Xor(product, Mul(f.P, rest, b, n)) == f.Times(aa, bb)
      decreases n
    {
      TopBit(rest, n, f.D);
      MulTop(f.P, rest, b, n);
      XorAssoc(product, if a >= one then b else 0,
               Mul(f.P, if a >= one then rest - Pow2(n - 1) else rest, MulX(f.P, b), n - 1));
      XorZero(product);
      if a >= one {
        product := Xor(product, b);
        a := a - one;
        rest := rest - Pow2(n - 1);
      }
      b := MulX(f.P, b);
      ShiftUp(rest, n, f.D);
      a := 2 * a;
      n := n - 1;
    }
    if rest != 0 {
      MultipleBounds(rest, Pow2(f.D - n));
    }
    MulZeroLeft(f.P, b, n);
    XorZero(product);
  }

  lemma {:induction false} MulZeroLeft(P: nat, b: nat, n: nat)
    ensures Mul(P, 0, b, n) == 0
  {
    hide MulXn;
    if n > 0 {
      MulZeroLeft(P, b, n - 1);
      XorZero(0);
    }
  }

  lemma TopBit(rest: nat, n: nat, d: nat)
    requires n <= d && rest * Pow2(d - n) != 0 && rest < Pow2(n)
    ensures n > 0
    ensures rest * Pow2(d - n) >= Pow2(d - 1) <==> rest >= Pow2(n - 1)
    ensures rest >= Pow2(n - 1) ==> rest * Pow2(d - n) - Pow2(d - 1) == (rest - Pow2(n - 1)) * Pow2(d - n)
  {
    assert n > 0;
    Pow2Add(n - 1, d - n);
    hide Pow2;
    Compare(rest, Pow2(n - 1), Pow2(d - n));
  }

  lemma Compare(a: nat, b: nat, p: nat)
    requires p > 0
    ensures a * p >= b * p <==> a >= b
    ensures (a - b) * p == a * p - b * p
  {
    var k := a - b;
    assert k * p == a * p - b * p;
    MultipleBounds(k, p);
  }

  lemma ShiftUp(rest: nat, n: nat, d: nat)
    requires 0 < n <= d
    ensures 2 * (rest * Pow2(d - n)) == rest * Pow2(d - (n - 1))
  {
    assert rest * (2 * Pow2(d - n)) == 2 * (rest * Pow2(d - n));
  }

  const LOG_ENTRIES := 64

  ghost predicate PowersOfX(f: Field, table: seq<nat>)
    requires f.D > 0
  {
    |table| == LOG_ENTRIES && forall i :: 0 <= i < LOG_ENTRIES ==> table[i] == f.Xpow(Pow2(i))
  }

  /** The table of x^(2^i), by repeated squaring. */
  method PowerTable(f: Field, table: array<nat>)
    requires f.Valid() && table.Length == LOG_ENTRIES
    modifies table
    ensures PowersOfX(f, table[..])
  {
    hide Mul, MulXn, Pow2;
    var k := f.One() / 2;
    XpowOne(f);
    for i := 0 to LOG_ENTRIES
      invariant k == f.Xpow(Pow2(i))
      invariant forall j :: 0 <= j < i ==> table[j] == f.Xpow(Pow2(j))
    {
      table[i] := k;
      XpowIn(f, Pow2(i));
      XpowAdd(f, Pow2(i), Pow2(i));
      Pow2Next(i);
      k := Multiply(f, k, k);
    }
  }

  lemma Pow2Next(i: nat)
    ensures Pow2(i) + Pow2(i) == Pow2(i + 1)
  {
  }

  lemma XpowOne(f: Field)
    requires f.Valid()
    ensures f.One() / 2 == f.Xpow(Pow2(0))
  {
    XorZero(f.One() / 2);
    assert f.One() == 2 * Pow2(f.D - 2);
    assert MulX(f.P, f.One()) == f.One() / 2;
    assert MulXn(f.P, f.One(), 1) == MulXn(f.P, MulX(f.P, f.One()), 0);
  }

  /** x^n for every 64-bit n, by the binary digits of n. */
  method XpowN(f: Field, table: array<nat>, n: nat) returns (result: nat)
    requires f.Valid() && PowersOfX(f, table[..]) && n < WORD
    ensures result == f.Xpow(n)
  {
    hide Mul, MulXn, Pow2;
    result := f.One();
    ghost var done: nat := 0;
    MulXnNone(f.P, f.One());
    var i: nat, rest: nat := 0, n;
    WordIsPow2();
    Pow2Zero();
    while rest != 0
      invariant i <= LOG_ENTRIES && rest < Pow2(LOG_ENTRIES - i)
      invariant done + rest * Pow2(i) == n && result == f.Xpow(done)
      decreases rest
    {
      Halved(rest, LOG_ENTRIES - i);
      BinaryDigit(rest, i);
      if rest % 2 == 1 {
        assert table[i] == table[..][i];
        XpowIn(f, done);
        XpowIn(f, Pow2(i));
        XpowAdd(f, done, Pow2(i));
        result := Multiply(f, result, table[i]);
        done := done + Pow2(i);
      }
      i, rest := i + 1, rest / 2;
    }
  }

  lemma WordIsPow2()
    ensures WORD == Pow2(LOG_ENTRIES)
  {
    Pow2Is(63);
  }

  lemma Pow2Zero()
    ensures Pow2(0) == 1
  {
  }

  lemma Halved(rest: nat, k: nat)
    requires 0 < rest < Pow2(k)
    ensures k > 0 && rest / 2 < Pow2(k - 1)
  {
  }

  lemma BinaryDigit(rest: nat, i: nat)
    ensures rest * Pow2(i) == (rest / 2) * Pow2(i + 1) + (if rest % 2 == 1 then Pow2(i) else 0)
  {
    var h, p := rest / 2, Pow2(i);
    assert rest == 2 * h + rest % 2;
    assert (2 * h + rest % 2) * p == h * (2 * p) + (rest % 2) * p;
  }

  /** Taking the low `d` bits, which are the highest coefficients, off the first factor. */
  lemma {:induction false} MulSplit(P: nat, hi: nat, lo: nat, b: nat, n: nat, d: nat)
    requires lo < Pow2(d)
    ensures Mul(P, hi * Pow2(d) + lo, b, n + d) == Xor(Mul(P, hi, b, n), MulXn(P, Mul(P, lo, b, d), n))
    decreases d
  {
    hide Xor, Mul, MulXn, Pow2;
    if d == 0 {
      Pow2Zero();
      assert lo == 0 && hi * Pow2(0) == hi;
      MulNone(P, lo, b);
      MulXnZero(P, n);
      XorZero(Mul(P, hi, b, n));
    } else {
      var a := hi * Pow2(d) + lo;
      HalfOfSum(hi, lo, d);
      MulSplit(P, hi, lo / 2, b, n, d - 1);
      MulStep(P, a, b, n + d);
      MulStep(P, lo, b, d);
      var top := if lo % 2 == 1 then MulXn(P, b, d - 1) else 0;
      MulXnLinear(P, Mul(P, lo / 2, b, d - 1), top, n);
      MulXnAdd(P, b, d - 1, n);
      MulXnZero(P, n);
      XorAssoc(Mul(P, hi, b, n), MulXn(P, Mul(P, lo / 2, b, d - 1), n), MulXn(P, top, n));
    }
  }

  lemma HalfOfSum(hi: nat, lo: nat, d: nat)
    requires d > 0 && lo < Pow2(d)
    ensures var a := hi * Pow2(d) + lo; a / 2 == hi * Pow2(d - 1) + lo / 2 && a % 2 == lo % 2
    ensures lo / 2 < Pow2(d - 1)
  {
    TimesDouble(hi, d);
  }

  /** A polynomial given unnormalized in `degree0` bits, which may be more than D, times m. */
  method MultiplyUnnormalized(f: Field, powers: array<nat>, unnorm: nat, degree0: nat, m: nat) returns (result: nat)
    requires f.Valid() && PowersOfX(f, powers[..]) && f.Has(m)
    requires unnorm < Pow2(degree0) && degree0 < WORD
    ensures result == Mul(f.P, unnorm, m, degree0)
  {
    hide Xor, Mul, MulXn, PowersOfX, Pow2;
    var v: nat, degree: nat := unnorm, degree0;
    result := 0;
    XorZero(Mul(f.P, unnorm, m, degree0));
    while degree > f.D
      invariant degree <= degree0 && v < Pow2(degree)
      invariant Xor(result, Mul(f.P, v, m, degree)) == Mul(f.P, unnorm, m, degree0)
      decreases degree
    {
      degree := degree - f.D;
      var value := v % Pow2(f.D);
      HighPart(v, degree, f.D);
      MulSplit(f.P, v / Pow2(f.D), value, m, degree, f.D);
      var power := XpowN(f, powers, degree);
      XpowIn(f, degree);
      var shifted := Multiply(f, m, power);
      TimesClosed(f, m, power);
      TimesXpow(f, m, degree);
      MulShift(f.P, value, m, f.D, degree);
      var term := Multiply(f, value, shifted);
      XorComm(Mul(f.P, v / Pow2(f.D), m, degree), term);
      XorAssoc(result, term, Mul(f.P, v / Pow2(f.D), m, degree));
      result := Xor(result, term);
      v := v / Pow2(f.D);
    }
    UpFits(v, degree, f.D);
    var last := Multiply(f, v * Pow2(f.D - degree), m);
    MulSplit(f.P, v, 0, m, degree, f.D - degree);
    MulZeroLeft(f.P, m, f.D - degree);
    MulXnZero(f.P, degree);
    XorZero(Mul(f.P, v, m, degree));
    result := Xor(result, last);
  }

  lemma HighPart(v: nat, n: nat, d: nat)
    requires v < Pow2(n + d)
    ensures v % Pow2(d) < Pow2(d) && v / Pow2(d) < Pow2(n) && v / Pow2(d) * Pow2(d) + v % Pow2(d) == v
  {
    Pow2Add(n, d);
    hide Pow2;
    var p, h := Pow2(d), v / Pow2(d);
    assert h * p + v % p == v;
    Compare(h, Pow2(n), p);
  }

  lemma UpFits(v: nat, n: nat, d: nat)
    requires n <= d && v < Pow2(n)
    ensures v * Pow2(d - n) < Pow2(d)
  {
    Pow2Add(n, d - n);
    hide Pow2;
    Compare(v, Pow2(n), Pow2(d - n));
  }

  /** Times x^n, an unnormalized polynomial is just its bits shifted through. */
  lemma UnnormalizedIsShift(f: Field, v: nat, degree: nat, n: nat)
    requires f.Valid() && degree <= f.D <= n + degree && v < Pow2(degree)
    ensures Mul(f.P, v, f.Xpow(n), degree) == MulXn(f.P, v, n + degree - f.D)
  {
    hide Mul, MulXn, Pow2, Xor;
    var up := v * Pow2(f.D - degree);
    UpFits(v, degree, f.D);
    TimesXpow(f, up, n);
    MulXnShift(f.P, v, f.D - degree);
    MulXnAdd(f.P, up, f.D - degree, n + degree - f.D);
    MulSplit(f.P, v, 0, f.Xpow(n), degree, f.D - degree);
    MulZeroLeft(f.P, f.Xpow(n), f.D - degree);
    MulXnZero(f.P, degree);
    XorZero(Mul(f.P, v, f.Xpow(n), degree));
  }

  /** Stores the low bytes of a CRC into a buffer. */
  method StoreBytes(f: Field, dst: array<Byte>, at: nat, crc: nat) returns (n: nat)
    requires at + CrcBytes(f) <= dst.Length
    modifies dst
    ensures n == CrcBytes(f)
    ensures dst[..] == old(dst[..at]) + BytesOf(crc, n) + old(dst[at + n..])
  {
    hide BytesOf;
    n := CrcBytes(f);
    var rest: nat := crc;
    ghost var was, all := dst[..], BytesOf(crc, n);
    assert all[0..] == all;
    for i := 0 to n
      invariant forall j :: 0 <= j < i ==> dst[at + j] == all[j]
      invariant forall j :: 0 <= j < at || at + i <= j < dst.Length ==> dst[j] == was[j]
      invariant BytesOf(rest, n - i) == all[i..]
    {
      LowByte(rest, n - i);
      assert all[i..][0] == all[i] && all[i..][1..] == all[i + 1..];
      dst[at + i] := rest % 256;
      rest := rest / 256;
    }
    Spliced(was, dst[..], at, all);
  }

  lemma LowByte(v: nat, n: nat)
    requires n > 0
    ensures BytesOf(v, n)[0] == v % 256 && BytesOf(v, n)[1..] == BytesOf(v / 256, n - 1)
  {
  }

  lemma Spliced(was: seq<Byte>, now: seq<Byte>, at: nat, all: seq<Byte>)
    requires |was| == |now| && at + |all| <= |was|
    requires forall j :: 0 <= j < |all| ==> now[at + j] == all[j]
    requires forall j :: 0 <= j < at || at + |all| <= j < |was| ==> now[j] == was[j]
    ensures now == was[..at] + all + was[at + |all|..]
  {
    var r := was[..at] + all + was[at + |all|..];
    forall k | 0 <= k < |now|
      ensures now[k] == r[k]
    {
      if at <= k < at + |all| {
        assert now[at + (k - at)] == all[k - at];
      }
    }
  }
}
