/** The CRC of a byte string, byte by byte, and what follows for it from linearity. */
module Crc {
  import opened RingMath
  import opened Wire
  import opened Bits
  import opened Gf

  /** Feeds `msg` into the register, one byte at a time: add the byte, multiply by x^8. */
  function Raw(P: nat, crc: nat, msg: seq<Byte>): (r: nat)
    decreases |msg|
  {
    if |msg| == 0 then crc else Raw(P, MulXn(P, Xor(crc, msg[0]), 8), msg[1..])
  }

  /** The CRC of `msg` with start value `start`; `canon` is added before and after. */
  function Value(P: nat, canon: nat, msg: seq<Byte>, start: nat): (r: nat)
  {
    Xor(Raw(P, Xor(start, canon), msg), canon)
  }

  lemma {:induction false} RawBound(P: nat, crc: nat, msg: seq<Byte>, n: nat)
    requires n >= 8 && P < Pow2(n) && crc < Pow2(n)
    ensures Raw(P, crc, msg) < Pow2(n)
    decreases |msg|
  {
    hide Xor, MulXn;
    if |msg| > 0 {
      Pow2Of8();
      Pow2Monotone(8, n);
      XorBound(crc, msg[0], n);
      MulXnBound(P, Xor(crc, msg[0]), n, 8);
      RawBound(P, MulXn(P, Xor(crc, msg[0]), 8), msg[1..], n);
    }
  }

  lemma {:induction false} RawAppend(P: nat, crc: nat, a: seq<Byte>, b: seq<Byte>)
    ensures Raw(P, crc, a + b) == Raw(P, Raw(P, crc, a), b)
    decreases |a|
  {
    hide Xor, MulXn;
    if |a| == 0 {
      assert a + b == b;
    } else {
      assert (a + b)[1..] == a[1..] + b;
      RawAppend(P, MulXn(P, Xor(crc, a[0]), 8), a[1..], b);
    }
  }

  /** A change of the register before the message travels through as a power of x. */
  lemma {:induction false} RawLinear(P: nat, d: nat, crc: nat, msg: seq<Byte>)
    ensures Raw(P, Xor(d, crc), msg) == Xor(MulXn(P, d, 8 * |msg|), Raw(P, crc, msg))
    decreases |msg|
  {
    hide Xor, MulXn;
    if |msg| == 0 {
      assert 8 * |msg| == 0;
      MulXnNone(P, d);
    } else {
      XorAssoc(d, crc, msg[0]);
      MulXnLinear(P, d, Xor(crc, msg[0]), 8);
      RawLinear(P, MulXn(P, d, 8), MulXn(P, Xor(crc, msg[0]), 8), msg[1..]);
      MulXnAdd(P, d, 8, 8 * (|msg| - 1));
    }
  }

  lemma MulXnNone(P: nat, d: nat)
    ensures MulXn(P, d, 0) == d
  {
  }

  // ---- bytes and words -------------------------------------------------------------------

  /** A byte string read as one little-endian number. */
  function WordOf(bytes: seq<Byte>): (w: nat)
  {
    if |bytes| == 0 then 0 else bytes[0] + 256 * WordOf(bytes[1..])
  }

  /** The `n` low bytes of a number, least significant first. */
  function BytesOf(v: nat, n: nat): (b: seq<Byte>)
    ensures |b| == n
  {
    if n == 0 then [] else [v % 256] + BytesOf(v / 256, n - 1)
  }

  lemma {:induction false} WordOfBytes(v: nat, n: nat)
    requires v < Pow2(8 * n)
    ensures WordOf(BytesOf(v, n)) == v
  {
    if n > 0 {
      Pow2Of8();
      Pow2Add(8, 8 * (n - 1));
      WordOfBytes(v / 256, n - 1);
      assert BytesOf(v, n)[1..] == BytesOf(v / 256, n - 1);
    }
  }

  lemma {:induction false} WordBound(bytes: seq<Byte>)
    ensures WordOf(bytes) < Pow2(8 * |bytes|)
  {
    if |bytes| > 0 {
      WordBound(bytes[1..]);
      Pow2Of8();
      Pow2Add(8, 8 * (|bytes| - 1));
    }
  }

  lemma WordSplit(bytes: seq<Byte>)
    requires |bytes| > 0
    ensures WordOf(bytes) == Xor(bytes[0], WordOf(bytes[1..]) * 256)
  {
    Pow2Of8();
    XorDisjoint(bytes[0], WordOf(bytes[1..]), 8);
  }

  /** Shifting the register up by whole bytes is undone by the same power of x. */
  lemma MulXnByte(P: nat, v: nat, n: nat)
    requires n >= 8
    ensures MulXn(P, v * 256, n) == MulXn(P, v, n - 8)
  {
    hide MulXn;
    Pow2Of8();
    MulXnShift(P, v, 8);
    MulXnAdd(P, v * 256, 8, n - 8);
  }

  /** Any number of bytes can be fed in at once, as one little-endian word. */
  lemma {:induction false} RawWord(P: nat, crc: nat, bytes: seq<Byte>)
    ensures Raw(P, crc, bytes) == MulXn(P, Xor(crc, WordOf(bytes)), 8 * |bytes|)
    decreases |bytes|
  {
    hide Xor, MulXn;
    if |bytes| == 0 {
      XorZero(crc);
      assert 8 * |bytes| == 0;
      MulXnNone(P, crc);
    } else {
      var n, b, rest := 8 * |bytes|, bytes[0], WordOf(bytes[1..]);
      var next := MulXn(P, Xor(crc, b), 8);
      RawWord(P, next, bytes[1..]);
      WordSplit(bytes);
      XorAssoc(crc, b, rest * 256);
      MulXnLinear(P, Xor(crc, b), rest * 256, n);
      MulXnAdd(P, Xor(crc, b), 8, n - 8);
      MulXnByte(P, rest, n);
      MulXnLinear(P, next, rest, n - 8);
    }
  }

  /** Whatever was in a register no longer than the message, afterwards it is a residue. */
  lemma RawShrinks(f: Field, crc: nat, bytes: seq<Byte>)
    requires f.Valid() && f.D <= 8 * |bytes| && crc < Pow2(8 * |bytes|)
    ensures f.Has(Raw(f.P, crc, bytes))
  {
    hide Xor, MulXn, Raw, WordOf;
    RawWord(f.P, crc, bytes);
    WordBound(bytes);
    XorBound(crc, WordOf(bytes), 8 * |bytes|);
    MulXnShrinks(f.P, Xor(crc, WordOf(bytes)), f.D, 8 * |bytes|, 8 * |bytes|);
  }

  /** One table step for the low byte of the register. */
  lemma ByteStep(P: nat, x: nat, n: nat)
    requires n >= 8
    ensures MulXn(P, x, n) == Xor(MulXn(P, x % 256, n), MulXn(P, x / 256, n - 8))
  {
    hide Xor, MulXn;
    ByteSplit(x);
    MulXnLinear(P, x % 256, (x / 256) * 256, n);
    MulXnByte(P, x / 256, n);
  }

  // ---- CRCs without touching the data ----------------------------------------------------

  function ChangeStartValue(f: Field, crc: nat, bytes: nat, startOld: nat, startNew: nat): (r: nat)
    requires f.D > 0
  {
    Xor(crc, f.Times(Xor(startNew, startOld), f.Xpow(8 * bytes)))
  }

  function Concatenate(f: Field, crcA: nat, crcB: nat, bytesB: nat): (r: nat)
    requires f.D > 0
  {
    ChangeStartValue(f, crcB, bytesB, 0, crcA)
  }

  function CrcOfZeroes(f: Field, canon: nat, bytes: nat, start: nat): (r: nat)
    requires f.D > 0
  {
    Xor(f.Times(Xor(start, canon), f.Xpow(8 * bytes)), canon)
  }

  lemma ChangeStartValueCorrect(f: Field, canon: nat, msg: seq<Byte>, startOld: nat, startNew: nat)
    requires f.Valid() && f.Has(startOld) && f.Has(startNew)
    ensures ChangeStartValue(f, Value(f.P, canon, msg, startOld), |msg|, startOld, startNew)
            == Value(f.P, canon, msg, startNew)
  {
    hide Xor, Raw, Mul, MulXn;
    var d := Xor(startNew, startOld);
    XorBound(startNew, startOld, f.D);
    TimesXpow(f, d, 8 * |msg|);
    RawLinear(f.P, d, Xor(startOld, canon), msg);
    XorAssoc(d, startOld, canon);
    XorCancel(startNew, startOld);
    var t, r := MulXn(f.P, d, 8 * |msg|), Raw(f.P, Xor(startOld, canon), msg);
    XorComm(Xor(r, canon), t);
    XorAssoc(t, r, canon);
  }

  lemma ConcatenateCorrect(f: Field, canon: nat, a: seq<Byte>, b: seq<Byte>, startA: nat)
    requires f.Valid() && f.Has(startA) && f.Has(canon)
    ensures Concatenate(f, Value(f.P, canon, a, startA), Value(f.P, canon, b, 0), |b|)
            == Value(f.P, canon, a + b, startA)
  {
    hide Xor, Raw, Mul, MulXn;
    var crcA := Value(f.P, canon, a, startA);
    XorBound(startA, canon, f.D);
    RawBound(f.P, Xor(startA, canon), a, f.D);
    XorBound(Raw(f.P, Xor(startA, canon), a), canon, f.D);
    ChangeStartValueCorrect(f, canon, b, 0, crcA);
    RawAppend(f.P, Xor(startA, canon), a, b);
    XorCancel(Raw(f.P, Xor(startA, canon), a), canon);
  }

  lemma CrcOfZeroesCorrect(f: Field, canon: nat, msg: seq<Byte>, start: nat)
    requires f.Valid() && f.Has(start) && f.Has(canon)
    requires forall k :: 0 <= k < |msg| ==> msg[k] == 0
    ensures CrcOfZeroes(f, canon, |msg|, start) == Value(f.P, canon, msg, start)
  {
    hide Xor, Raw, Mul, MulXn;
    XorBound(start, canon, f.D);
    TimesXpow(f, Xor(start, canon), 8 * |msg|);
    RawZeroes(f.P, Xor(start, canon), msg);
  }

  lemma {:induction false} RawZeroes(P: nat, crc: nat, msg: seq<Byte>)
    requires forall k :: 0 <= k < |msg| ==> msg[k] == 0
    ensures Raw(P, crc, msg) == MulXn(P, crc, 8 * |msg|)
    decreases |msg|
  {
    hide Xor, MulXn;
    if |msg| == 0 {
      assert 8 * |msg| == 0;
      MulXnNone(P, crc);
    } else {
      XorZero(crc);
      RawZeroes(P, MulXn(P, crc, 8), msg[1..]);
      MulXnAdd(P, crc, 8, 8 * (|msg| - 1));
    }
  }

  // ---- storing the CRC after the message ---------------------------------------------------

  /** The least number of bytes that hold a CRC. */
  function CrcBytes(f: Field): (n: nat)
    ensures f.D <= 8 * n < f.D + 8
  {
    (f.D + 7) / 8
  }

  function CrcOfCrc(f: Field, canon: nat): (r: nat)
    requires f.D > 0
  {
    f.Times(canon, Xor(f.One(), f.Xpow(8 * CrcBytes(f))))
  }

  /** After the stored bytes of `v` the register is x^(8*n) times the sum of both. */
  lemma RawStored(f: Field, crc: nat, v: nat)
    requires f.Valid() && f.Has(v)
    ensures Raw(f.P, crc, BytesOf(v, CrcBytes(f))) == MulXn(f.P, Xor(crc, v), 8 * CrcBytes(f))
  {
    hide Xor, MulXn, Raw, BytesOf;
    var n := CrcBytes(f);
    assert f.D <= 8 * n;
    Pow2Monotone(f.D, 8 * n);
    WordOfBytes(v, n);
    RawWord(f.P, crc, BytesOf(v, n));
  }

  /** The CRC of a message followed by its own CRC does not depend on the message. */
  lemma StoredCrcIsConstant(f: Field, canon: nat, msg: seq<Byte>, start: nat)
    requires f.Valid() && f.Has(canon) && f.Has(start)
    ensures Value(f.P, canon, msg + BytesOf(Value(f.P, canon, msg, start), CrcBytes(f)), start) == CrcOfCrc(f, canon)
  {
    hide Xor, MulXn, Raw, BytesOf, Mul;
    var n := 8 * CrcBytes(f);
    var s := Raw(f.P, Xor(start, canon), msg);
    var crc := Xor(s, canon);
    XorBound(start, canon, f.D);
    RawBound(f.P, Xor(start, canon), msg, f.D);
    XorBound(s, canon, f.D);
    RawAppend(f.P, Xor(start, canon), msg, BytesOf(crc, CrcBytes(f)));
    RawStored(f, s, crc);
    XorComm(s, canon);
    XorCancel(canon, s);
    assert Xor(s, crc) == canon;
    TimesDistributes(f, canon, f.One(), f.Xpow(n));
    TimesOne(f, canon);
    TimesXpow(f, canon, n);
    XorComm(canon, MulXn(f.P, canon, n));
  }

  /** The value whose bytes, stored after a message, lead to the wanted CRC. */
  function Complement(f: Field, canon: nat, inverse: nat, messageCrc: nat, result: nat): (r: nat)
  {
    Xor(f.Times(Xor(result, canon), inverse), Xor(messageCrc, canon))
  }

  /** With a true inverse of x^(8n), any CRC can be reached by appending n bytes. */
  lemma ComplementReaches(f: Field, canon: nat, inverse: nat, msg: seq<Byte>, start: nat, result: nat)
    requires f.Valid() && f.Has(canon) && f.Has(start) && f.Has(result) && f.Has(inverse)
    requires f.Times(f.Xpow(8 * CrcBytes(f)), inverse) == f.One()
    ensures var c := Complement(f, canon, inverse, Value(f.P, canon, msg, start), result);
            Value(f.P, canon, msg + BytesOf(c, CrcBytes(f)), start) == result
  {
    hide Xor, MulXn, Raw, BytesOf, Mul;
    var n := 8 * CrcBytes(f);
    var s := Raw(f.P, Xor(start, canon), msg);
    var target := Xor(result, canon);
    var q := f.Times(target, inverse);
    XorBound(start, canon, f.D);
    XorBound(result, canon, f.D);
    RawBound(f.P, Xor(start, canon), msg, f.D);
    XorCancel(s, canon);
    XorCancel(result, canon);
    TimesClosed(f, target, inverse);
    XorBound(q, s, f.D);
    var c := Xor(q, s);
    RawAppend(f.P, Xor(start, canon), msg, BytesOf(c, CrcBytes(f)));
    RawStored(f, s, c);
    XorCancel(q, s);
    XpowIn(f, n);
    TimesXpow(f, q, n);
    TimesAssoc(f, target, inverse, f.Xpow(n));
    TimesComm(f, inverse, f.Xpow(n));
    TimesOne(f, target);
  }
}
