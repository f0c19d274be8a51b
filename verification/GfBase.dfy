/** The object that holds the field's constants, and what is computed from CRCs alone. */
module GfBase {
  import opened RingMath
  import opened Wire
  import opened Bits
  import opened Gf
  import opened Crc
  import opened GfUtil
  import opened FindLcd

  class Base {
    const f: Field
    const canon: nat
    const crcBytes: nat
    const powers: array<nat>
    const crcOfCrc: nat
    const xPowMinusW: nat

    ghost predicate Valid()
      reads powers
    {
      && f.Valid() && f.Has(canon) && f.Has(xPowMinusW) && crcBytes == CrcBytes(f) && PowersOfX(f, powers[..])
      && crcOfCrc == CrcOfCrc(f, canon)
      && (f.P >= f.One() <==> f.Times(f.Xpow(8 * crcBytes), xPowMinusW) == f.One())
    }

    constructor (f: Field, canonical: bool)
      requires f.Valid() && 8 * CrcBytes(f) < WORD
      ensures Valid() && this.f == f
      ensures canon == if canonical then 2 * f.One() - 1 else 0
    {
      hide Xor, Mul, MulXn, Pow2, PowersOfX, IsGcd;
      this.f := f;
      crcBytes := CrcBytes(f);
      MaskFits(f);
      var mask := if canonical then f.One() + (f.One() - 1) else 0;
      canon := mask;
      var p := new nat[LOG_ENTRIES];
      PowerTable(f, p);
      var n := 8 * CrcBytes(f);
      var power := XpowN(f, p, n);
      XpowIn(f, n);
      OneIn(f);
      XorBound(f.One(), power, f.D);
      var constant := Multiply(f, mask, Xor(f.One(), power));
      var g, inverse := FindLCD(f, power);
      InverseExactly(f, n, g, inverse);
      powers, crcOfCrc, xPowMinusW := p, constant, inverse;
    }

    /** x^(8n), for every n below 2^61. */
    method Xpow8N(n: nat) returns (r: nat)
      requires Valid() && 8 * n < WORD
      ensures r == f.Xpow(8 * n)
    {
      hide Mul, MulXn, Pow2, PowersOfX;
      r := XpowN(f, powers, 8 * n);
    }

    method ChangeStart(crc: nat, ghost msg: seq<Byte>, bytes: nat, startOld: nat, startNew: nat) returns (r: nat)
      requires Valid() && f.Has(startOld) && f.Has(startNew) && bytes == |msg| && 8 * bytes < WORD
      requires crc == Value(f.P, canon, msg, startOld)
      ensures r == Value(f.P, canon, msg, startNew)
    {
      hide Xor, Mul, MulXn, Pow2, PowersOfX, Value;
      var power := Xpow8N(bytes);
      XpowIn(f, 8 * bytes);
      XorBound(startNew, startOld, f.D);
      var m := Multiply(f, Xor(startNew, startOld), power);
      r := Xor(crc, m);
      ChangeStartValueCorrect(f, canon, msg, startOld, startNew);
    }

    /** From the CRCs of two messages, the CRC of both. */
    method Concat(crcA: nat, crcB: nat, ghost a: seq<Byte>, ghost b: seq<Byte>, bytesB: nat, ghost start: nat)
      returns (r: nat)
      requires Valid() && f.Has(start) && bytesB == |b| && 8 * bytesB < WORD
      requires crcA == Value(f.P, canon, a, start) && crcB == Value(f.P, canon, b, 0)
      ensures r == Value(f.P, canon, a + b, start)
    {
      hide Xor, Mul, MulXn, Pow2, PowersOfX, Value;
      ValueBound(f, canon, a, start);
      ConcatenateCorrect(f, canon, a, b, start);
      ChangeStartValueCorrect(f, canon, b, 0, crcA);
      ZeroIn(f);
      r := ChangeStart(crcB, b, bytesB, 0, crcA);
    }

    method ZeroesCrc(bytes: nat, start: nat) returns (r: nat)
      requires Valid() && f.Has(start) && 8 * bytes < WORD
      ensures r == Value(f.P, canon, seq(bytes, _ => 0), start)
    {
      hide Xor, Mul, MulXn, Pow2, PowersOfX, Value;
      var power := Xpow8N(bytes);
      XpowIn(f, 8 * bytes);
      XorBound(start, canon, f.D);
      r := Multiply(f, Xor(start, canon), power);
      r := Xor(r, canon);
      CrcOfZeroesCorrect(f, canon, seq(bytes, _ => 0), start);
    }

    /** Stores the CRC of a message behind it; the CRC of both is then `crcOfCrc`. */
    method StoreCrc(dst: array<Byte>, msg: seq<Byte>, crc: nat, ghost start: nat) returns (n: nat)
      requires Valid() && f.Has(start) && crc == Value(f.P, canon, msg, start)
      requires dst.Length == |msg| + crcBytes && dst[..|msg|] == msg
      modifies dst
      ensures n == crcBytes && dst[..|msg|] == msg && WordOf(dst[|msg|..]) == crc
      ensures Value(f.P, canon, dst[..], start) == crcOfCrc
    {
      hide Xor, Mul, MulXn, Pow2, PowersOfX, Value, BytesOf, CrcOfCrc;
      n := StoreBytes(f, dst, |msg|, crc);
      assert dst[..] == msg + BytesOf(crc, n);
      assert dst[|msg|..] == BytesOf(crc, n);
      ValueBound(f, canon, msg, start);
      StoredWord(f, crc);
      StoredCrcIsConstant(f, canon, msg, start);
    }

    /** Stores bytes behind a message that give it the wanted CRC. */
    method StoreComplementaryCrc(dst: array<Byte>, msg: seq<Byte>, crc: nat, result: nat, ghost start: nat)
      returns (n: nat)
      requires Valid() && f.Has(start) && crc == Value(f.P, canon, msg, start) && f.Has(result)
      requires dst.Length == |msg| + crcBytes && dst[..|msg|] == msg
      modifies dst
      ensures n == crcBytes && dst[..|msg|] == msg
      ensures f.P >= f.One() ==> Value(f.P, canon, dst[..], start) == result
    {
      hide Xor, Mul, MulXn, Pow2, PowersOfX, Value, BytesOf;
      XorBound(result, canon, f.D);
      var crc0 := Multiply(f, Xor(result, canon), xPowMinusW);
      crc0 := Xor(crc0, Xor(crc, canon));
      n := StoreBytes(f, dst, |msg|, crc0);
      assert dst[..] == msg + BytesOf(crc0, n);
      if f.P >= f.One() {
        ComplementReaches(f, canon, xPowMinusW, msg, start, result);
      }
    }
  }

  /** The stored bytes, read as one number, are the CRC. */
  lemma StoredWord(f: Field, crc: nat)
    requires f.Valid() && f.Has(crc)
    ensures WordOf(BytesOf(crc, CrcBytes(f))) == crc
  {
    Pow2Monotone(f.D, 8 * CrcBytes(f));
    WordOfBytes(crc, CrcBytes(f));
  }

  /** The stored power is a true inverse exactly when P has a constant term. */
  lemma InverseExactly(f: Field, n: nat, g: nat, inverse: nat)
    requires f.Valid() && n > 0 && f.Has(inverse) && f.Times(f.Xpow(n), inverse) == g
    requires f.Xpow(n) != 0 ==> f.Has(g) && IsGcd(f, f.Xpow(n), g)
    ensures f.P >= f.One() <==> g == f.One()
  {
    hide Xor, Mul, MulXn, Pow2, IsGcd;
    if f.P >= f.One() {
      PowerNotZero(f, n);
      GcdOfPower(f, n, g);
    } else {
      NoInverse(f, n, inverse);
    }
  }

  /** With a constant term, multiplying by x loses nothing. */
  lemma {:induction false} PowerNotZero(f: Field, n: nat)
    requires f.Valid() && f.P >= f.One()
    ensures f.Xpow(n) != 0
  {
    hide Xor, MulX, MulXn;
    if n == 0 {
      MulXnNone(f.P, f.One());
    } else {
      PowerNotZero(f, n - 1);
      XpowNext(f, n - 1);
      XpowIn(f, n - 1);
      MulXNotZero(f, f.Xpow(n - 1));
    }
  }

  lemma MulXNotZero(f: Field, b: nat)
    requires f.Valid() && f.P >= f.One() && 0 < b && f.Has(b)
    ensures MulX(f.P, b) != 0
  {
    hide Xor;
    if b % 2 == 0 {
      XorZero(b / 2);
    } else {
      XorCancel(b / 2, f.P);
      XorZero(f.P);
    }
  }

  lemma MaskFits(f: Field)
    requires f.Valid()
    ensures f.Has(0) && f.Has(2 * f.One() - 1)
  {
  }

  lemma ZeroIn(f: Field)
    ensures f.Has(0)
  {
  }

  lemma ValueBound(f: Field, canon: nat, msg: seq<Byte>, start: nat)
    requires f.Valid() && f.Has(canon) && f.Has(start)
    ensures f.Has(Value(f.P, canon, msg, start))
  {
    hide Xor, Raw, Pow2;
    XorBound(start, canon, f.D);
    RawBound(f.P, Xor(start, canon), msg, f.D);
    XorBound(Raw(f.P, Xor(start, canon), msg), canon, f.D);
  }

  /** Without a constant term half of all CRC values belong to no message at all. */
  lemma SomeCrcUnreachable(f: Field, canon: nat, msg: seq<Byte>, start: nat)
    requires f.Valid() && f.P < f.One() && f.Has(canon) && f.Has(start) && |msg| > 0
    ensures Value(f.P, canon, msg, start) != Xor(f.One(), canon)
  {
    hide Xor, Raw, MulX, MulXn, Mul, Pow2;
    var k := |msg| - 1;
    var c := Raw(f.P, Xor(start, canon), msg[..k]);
    assert msg == msg[..k] + [msg[k]];
    RawAppend(f.P, Xor(start, canon), msg[..k], [msg[k]]);
    XorBound(start, canon, f.D);
    RawBound(f.P, Xor(start, canon), msg[..k], f.D);
    RawOne(f.P, c, msg[k]);
    Pow2Of8();
    Pow2Monotone(8, f.D);
    XorBound(c, msg[k], f.D);
    var y := Xor(c, msg[k]);
    XpowIn(f, 8);
    TimesXpow(f, y, 8);
    TimesComm(f, f.Xpow(8), y);
    NoInverse(f, 8, y);
    XorCancel(MulXn(f.P, y, 8), canon);
    XorCancel(f.One(), canon);
  }

  lemma RawOne(P: nat, c: nat, b: Byte)
    ensures Raw(P, c, [b]) == MulXn(P, Xor(c, b), 8)
  {
    hide Xor, MulXn;
    var one := [b];
    assert one[1..] == [];
    assert Raw(P, MulXn(P, Xor(c, one[0]), 8), one[1..]) == MulXn(P, Xor(c, one[0]), 8);
  }

  /** Storing the complement reaches every CRC exactly when P has a constant term. */
  lemma ReachesAllExactly(f: Field, canon: nat, inverse: nat, msg: seq<Byte>, start: nat)
    requires f.Valid() && f.Has(canon) && f.Has(start) && f.Has(inverse)
    requires f.P >= f.One() <==> f.Times(f.Xpow(8 * CrcBytes(f)), inverse) == f.One()
    ensures (forall result :: f.Has(result) ==> Completed(f, canon, inverse, msg, start, result) == result)
            <==> f.P >= f.One()
  {
    hide Xor, Raw, MulX, MulXn, Mul, Pow2, Value, BytesOf;
    if f.P >= f.One() {
      forall result | f.Has(result)
        ensures Completed(f, canon, inverse, msg, start, result) == result
      {
        ComplementReaches(f, canon, inverse, msg, start, result);
      }
    } else {
      OneIn(f);
      XorBound(f.One(), canon, f.D);
      var result := Xor(f.One(), canon);
      var c := Complement(f, canon, inverse, Value(f.P, canon, msg, start), result);
      SomeCrcUnreachable(f, canon, msg + BytesOf(c, CrcBytes(f)), start);
      assert Completed(f, canon, inverse, msg, start, result) != result;
    }
  }

  /** The CRC of a message with its complement behind it. */
  function Completed(f: Field, canon: nat, inverse: nat, msg: seq<Byte>, start: nat, result: nat): (r: nat)
  {
    var c := Complement(f, canon, inverse, Value(f.P, canon, msg, start), result);
    Value(f.P, canon, msg + BytesOf(c, CrcBytes(f)), start)
  }
}
