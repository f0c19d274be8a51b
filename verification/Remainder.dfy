/** Which function the CRC loops compute: the remainder of a polynomial division, and for CRC-32C
    by which polynomial. */
module Remainder {
  import opened RingMath
  import opened Wire
  import opened Bits
  import opened Gf
  import opened Poly
  import opened Crc
  import opened Crc32c

  // ---- remainders ----------------------------------------------------------------------------------

  /** The message as a polynomial: its first bit, the lowest bit of its first byte, is the
      coefficient of the highest power. */
  function MessagePoly(msg: seq<Byte>): (m: nat)
  {
    if |msg| == 0 then 0 else 256 * MessagePoly(msg[..|msg| - 1]) + Rev(msg[|msg| - 1], 8)
  }

  lemma {:induction false} ProductPower(n: nat, x: nat)
    ensures Product(Pow2(n), x) == Pow2(n) * x
  {
    hide Product;
    if n == 0 {
      ProductOne(x);
    } else {
      ProductPower(n - 1, x);
      ProductDoubleLeft(Pow2(n - 1), x);
    }
  }

  /** A byte in the register is the byte's polynomial, moved up. */
  lemma {:induction false} RevByte(b: nat, n: nat)
    requires b < 256 && n >= 8
    ensures Rev(b, n) == Pow2(n - 8) * Rev(b, 8)
    decreases n
  {
    hide Rev;
    if n > 8 {
      Pow2Of8();
      Pow2Monotone(8, n - 1);
      RevExtend(b, n);
      RevByte(b, n - 1);
    }
  }

  /** One more byte of the message. */
  lemma MessageGrows(msg: seq<Byte>, b: Byte)
    ensures MessagePoly(msg + [b]) == Xor(Product(Pow2(8), MessagePoly(msg)), Rev(b, 8))
  {
    hide Rev, Xor, Product;
    assert (msg + [b])[..|msg|] == msg;
    RevBound(b, 8);
    Pow2Of8();
    ProductPower(8, MessagePoly(msg));
    XorDisjoint(Rev(b, 8), MessagePoly(msg), 8);
    XorComm(Rev(b, 8), MessagePoly(msg) * 256);
  }

  /** The register after the message, started at `crc`: what is left of x^(8 * length) * crc
      + x^D * message modulo the whole polynomial. */
  ghost function Dividend(f: Field, crc: nat, msg: seq<Byte>): (r: nat)
  {
    Xor(Product(Pow2(8 * |msg|), Rev(crc, f.D)), Product(Pow2(f.D), MessagePoly(msg)))
  }

  lemma DividendGrows(f: Field, crc: nat, msg: seq<Byte>, b: Byte)
    requires f.Valid()
    ensures Dividend(f, crc, msg + [b]) == Product(Pow2(8), Xor(Dividend(f, crc, msg), Rev(b, f.D)))
  {
    hide Rev, Xor, Product, MessagePoly;
    var r, m, n := Rev(crc, f.D), MessagePoly(msg), 8 * |msg|;
    var head, tail := Product(Pow2(n), r), Product(Pow2(f.D), m);
    MessageGrows(msg, b);
    PowerTwice(8, n, r);
    ProductRight(Pow2(f.D), Product(Pow2(8), m), Rev(b, 8));
    PowerTwice(8, f.D, m);
    PowerTwice(f.D, 8, m);
    RevByte(b, f.D);
    ProductPower(f.D - 8, Rev(b, 8));
    PowerTwice(8, f.D - 8, Rev(b, 8));
    ProductRight(Pow2(8), Xor(head, tail), Rev(b, f.D));
    ProductRight(Pow2(8), head, tail);
    XorAssoc(Product(Pow2(8), head), Product(Pow2(8), tail), Product(Pow2(8), Rev(b, f.D)));
  }

  lemma PowerTwice(a: nat, b: nat, x: nat)
    ensures Product(Pow2(a), Product(Pow2(b), x)) == Product(Pow2(a + b), x)
  {
    hide Product;
    ProductPower(b, x);
    ProductPower(a, Pow2(b) * x);
    ProductPower(a + b, x);
    Pow2Add(a, b);
    assert Pow2(a) * (Pow2(b) * x) == (Pow2(a) * Pow2(b)) * x;
  }

  /** The CRC register is the remainder of the message, for every polynomial, start value and
      message. */
  lemma {:induction false} RawIsRemainder(f: Field, crc: nat, msg: seq<Byte>)
    requires f.Valid() && f.Has(crc)
    ensures f.Has(Raw(f.P, crc, msg)) && Rev(Raw(f.P, crc, msg), f.D) < Pow2(f.D)
    ensures Congruent(f, Rev(Raw(f.P, crc, msg), f.D), Dividend(f, crc, msg))
    decreases |msg|
  {
    hide Rev, Xor, Product, MulXn, Raw, Congruent, Dividend;
    RawBound(f.P, crc, msg, f.D);
    RevBound(Raw(f.P, crc, msg), f.D);
    if |msg| == 0 {
      EmptyDividend(f, crc);
      assert msg == [];
      CongruentSelf(f, Rev(crc, f.D));
    } else {
      var init, b := msg[..|msg| - 1], msg[|msg| - 1];
      assert init + [b] == msg;
      var r := Raw(f.P, crc, init);
      RawIsRemainder(f, crc, init);
      NextByte(f, crc, init, b);
    }
  }

  lemma EmptyDividend(f: Field, crc: nat)
    ensures Dividend(f, crc, []) == Rev(crc, f.D) && Raw(f.P, crc, []) == crc
  {
    hide Rev, Xor, Product;
    var none: seq<Byte> := [];
    assert 8 * |none| == 0 && MessagePoly(none) == 0;
    ProductOne(Rev(crc, f.D));
    ProductZero(Pow2(f.D));
    XorZero(Rev(crc, f.D));
  }

  lemma NextByte(f: Field, crc: nat, msg: seq<Byte>, b: Byte)
    requires f.Valid() && f.Has(crc) && f.Has(Raw(f.P, crc, msg))
    requires Congruent(f, Rev(Raw(f.P, crc, msg), f.D), Dividend(f, crc, msg))
    ensures Congruent(f, Rev(Raw(f.P, crc, msg + [b]), f.D), Dividend(f, crc, msg + [b]))
  {
    hide Rev, Xor, Product, MulXn, Raw, Congruent, Dividend;
    var r, D := Raw(f.P, crc, msg), f.D;
    OneByte(f.P, crc, msg, b);
    ByteFits(f, b);
    XorBound(r, b, D);
    MulXnIsPower(f, Xor(r, b), 8);
    RevSum(r, b, D);
    CongruentSelf(f, Rev(b, D));
    CongruentSum(f, Rev(r, D), Dividend(f, crc, msg), Rev(b, D), Rev(b, D));
    CongruentProduct(f, Pow2(8), Rev(Xor(r, b), D), Xor(Dividend(f, crc, msg), Rev(b, D)));
    DividendGrows(f, crc, msg, b);
    CongruentTransitive(f, Rev(MulXn(f.P, Xor(r, b), 8), D), Product(Pow2(8), Rev(Xor(r, b), D)),
                        Dividend(f, crc, msg + [b]));
  }

  lemma ByteFits(f: Field, b: Byte)
    requires f.Valid()
    ensures b < Pow2(f.D)
  {
    Pow2Of8();
    Pow2Monotone(8, f.D);
  }

  lemma OneByte(P: nat, crc: nat, msg: seq<Byte>, b: Byte)
    ensures Raw(P, crc, msg + [b]) == MulXn(P, Xor(Raw(P, crc, msg), b), 8)
  {
    hide Xor, MulXn;
    RawAppend(P, crc, msg, [b]);
    assert [b][1..] == [];
  }

  /** There is only one remainder. */
  lemma ResidueUnique(f: Field, x: nat, y: nat)
    requires f.Valid() && x < Pow2(f.D) && y < Pow2(f.D) && Congruent(f, x, y)
    ensures x == y
  {
    hide Rev, Xor, Product;
    FullDegree(f);
    XorBound(x, y, f.D);
    var k: nat :| Product(Full(f), k) == Xor(x, y);
    if k > 0 {
      var m := DegreeExists(k);
      DegreesAdd(Full(f), k, f.D, m);
      Pow2Monotone(f.D, f.D + m);
    } else {
      ProductZero(Full(f));
    }
    XorCancel(x, y);
    XorZero(y);
  }

  lemma FullDegree(f: Field)
    ensures HasDegree(Full(f), f.D)
  {
    hide Rev, Xor;
    RevBound(f.P, f.D);
    XorDisjoint(Rev(f.P, f.D), 1, f.D);
  }

  // ---- conventions and polynomial -------------------------------------------------------------------

  /** The bits of a register complemented. */
  lemma {:induction false} XorOnes(a: nat, n: nat)
    requires a < Pow2(n)
    ensures Xor(a, Pow2(n) - 1) == Pow2(n) - 1 - a
  {
    if n > 0 {
      XorOnes(a / 2, n - 1);
      XorHalf(a, Pow2(n) - 1);
      hide Xor;
    }
  }

  /** A highest bit set in the register (0xffff_ffff with the bytes of 0x7fff_ffff added) takes 32
      steps to come out as P itself, so the canonical CRC of these four bytes is P's complement. */
  lemma OneBitMessage(P: nat)
    requires P < 0x1_0000_0000
    ensures Value(P, 0xffff_ffff, [0xff, 0xff, 0xff, 0x7f], 0) == 0xffff_ffff - P
  {
    hide Xor, MulXn, Raw, WordOf;
    var msg: seq<Byte> := [0xff, 0xff, 0xff, 0x7f];
    Pow2Small();
    XorZero(0xffff_ffff);
    RawWord(P, 0xffff_ffff, msg);
    FourBytes();
    XorComm(0xffff_ffff, 0x7fff_ffff);
    XorOnes(0x7fff_ffff, 32);
    Pow2Top();
    MulXnAdd(P, 0x8000_0000, 31, 1);
    MulXnShift(P, 1, 31);
    OneStep(P);
    XorOnes(P, 32);
  }

  lemma FourBytes()
    ensures WordOf([0xff, 0xff, 0xff, 0x7f]) == 0x7fff_ffff
  {
    var a: seq<Byte> := [0xff, 0xff, 0xff, 0x7f];
    assert a[1..] == [0xff, 0xff, 0x7f] && a[1..][1..] == [0xff, 0x7f] && a[1..][1..][1..] == [0x7f];
    assert a[1..][1..][1..][1..] == [];
  }

  lemma Pow2Top()
    ensures Pow2(31) == 0x8000_0000
  {
    Pow2Small();
    assert Pow2(32) == 2 * Pow2(31);
  }

  lemma OneStep(P: nat)
    ensures MulXn(P, 1, 1) == P
  {
    XorZero(P);
    assert MulX(P, 1) == P;
    assert MulXn(P, 1, 1) == MulXn(P, P, 0);
  }

  /** One more bit on top of a register is one more low coefficient. */
  lemma {:induction false} RevTop(a: nat, m: nat, n: nat)
    requires a < Pow2(m) && m < n
    ensures Rev(a + Pow2(m), n) == Rev(a, n) + Pow2(n - 1 - m)
    decreases n
  {
    if m == 0 {
      RevZero(n - 1);
      RevZero(n);
    } else {
      assert (a + Pow2(m)) / 2 == a / 2 + Pow2(m - 1) && (a + Pow2(m)) % 2 == a % 2;
      RevTop(a / 2, m - 1, n - 1);
    }
  }

  /** The polynomial of CRC-32C: x^32 + x^28 + x^27 + x^26 + x^25 + x^23 + x^22 + x^20 + x^19 + x^18
      + x^14 + x^13 + x^11 + x^10 + x^9 + x^8 + x^6 + 1, section 12.1 of RFC 3720. */
  lemma CastagnoliTerms()
    ensures Full(CASTAGNOLI)
            == Pow2(32) + Pow2(28) + Pow2(27) + Pow2(26) + Pow2(25) + Pow2(23) + Pow2(22) + Pow2(20) + Pow2(19)
               + Pow2(18) + Pow2(14) + Pow2(13) + Pow2(11) + Pow2(10) + Pow2(9) + Pow2(8) + Pow2(6) + Pow2(0)
  {
    hide Rev, Xor, Pow2;
    PowersBelow();
    RevZero(32);
    RevTop(0x0, 3, 32);
    RevTop(0x8, 4, 32);
    RevTop(0x18, 5, 32);
    RevTop(0x38, 6, 32);
    RevTop(0x78, 8, 32);
    RevTop(0x178, 9, 32);
    RevTop(0x378, 11, 32);
    RevTop(0xb78, 12, 32);
    RevTop(0x1b78, 13, 32);
    RevTop(0x3b78, 17, 32);
    RevTop(0x2_3b78, 18, 32);
    RevTop(0x6_3b78, 20, 32);
    RevTop(0x16_3b78, 21, 32);
    RevTop(0x36_3b78, 22, 32);
    RevTop(0x76_3b78, 23, 32);
    RevTop(0xf6_3b78, 25, 32);
    RevTop(0x2f6_3b78, 31, 32);
    RevBound(CASTAGNOLI.P, 32);
    XorDisjoint(Rev(CASTAGNOLI.P, 32), 1, 32);
  }

  lemma PowersBelow()
    ensures Pow2(3) == 0x8 && Pow2(4) == 0x10 && Pow2(5) == 0x20 && Pow2(6) == 0x40 && Pow2(8) == 0x100
    ensures Pow2(9) == 0x200 && Pow2(11) == 0x800 && Pow2(12) == 0x1000 && Pow2(13) == 0x2000
    ensures Pow2(17) == 0x2_0000 && Pow2(18) == 0x4_0000 && Pow2(20) == 0x10_0000 && Pow2(21) == 0x20_0000
    ensures Pow2(22) == 0x40_0000 && Pow2(23) == 0x80_0000 && Pow2(25) == 0x200_0000 && Pow2(31) == 0x8000_0000
  {
    Pow2Top();
    assert Pow2(4) == 16;
    assert Pow2(9) == 0x200;
    assert Pow2(13) == 0x2000;
    assert Pow2(18) == 0x4_0000;
    assert Pow2(22) == 0x40_0000;
  }
}
