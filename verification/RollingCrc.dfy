/** The CRC of a window that moves over the data one byte at a time, from the CRC of the
    window before, the byte that leaves and the byte that enters. */
module RollingCrc {
  import opened RingMath
  import opened Wire
  import opened Bits
  import opened Gf
  import opened Crc
  import opened GfUtil
  import opened GenericCrc

  /** The constant part of the correction for a byte that leaves a window of `n` bytes:
      (x^(8n) * (canon ^ start) ^ canon) * (1 ^ x^8). */
  ghost function Constant(f: Field, canon: nat, start: nat, n: nat): (r: nat)
    requires f.D > 0
  {
    f.Times(Xor(f.Times(Xor(canon, start), f.Xpow(8 * n)), canon), Xor(f.One(), f.Xpow(8)))
  }

  /** The correction for the byte `v`. */
  ghost function Out(f: Field, canon: nat, start: nat, n: nat, v: Byte): (r: nat)
    requires f.D > 0
  {
    Xor(MulXn(f.P, v, 8 * n + 8), Constant(f, canon, start, n))
  }

  /** One roll: feed the new byte, correct for the old one. */
  ghost function Rolled(f: Field, canon: nat, start: nat, n: nat, crc: nat, byteOut: Byte, byteIn: Byte): (r: nat)
    requires f.D > 0
  {
    Xor(MulXn(f.P, Xor(crc, byteIn), 8), Out(f, canon, start, n, byteOut))
  }

  /** The window of `n` bytes at `k`. */
  ghost function Window(data: seq<Byte>, n: nat, k: nat): (s: seq<Byte>)
    requires k + n <= |data|
  {
    data[k..k + n]
  }

  /** `k` rolls after the first window. */
  ghost function AfterRolls(f: Field, canon: nat, start: nat, n: nat, data: seq<Byte>, k: nat): (r: nat)
    requires f.D > 0 && k + n <= |data|
  {
    if k == 0 then Value(f.P, canon, Window(data, n, 0), start)
    else Rolled(f, canon, start, n, AfterRolls(f, canon, start, n, data, k - 1), data[k - 1], data[k - 1 + n])
  }

  lemma ConstantExpanded(f: Field, canon: nat, start: nat, n: nat)
    requires f.Valid() && f.Has(canon) && f.Has(start)
    ensures var c := Xor(start, canon);
            Constant(f, canon, start, n)
            == Xor(Xor(MulXn(f.P, c, 8 * n), MulXn(f.P, c, 8 * n + 8)), Xor(canon, MulXn(f.P, canon, 8)))
  {
    hide Xor, MulXn, Mul, Pow2;
    var c := Xor(start, canon);
    XorComm(canon, start);
    XorBound(start, canon, f.D);
    TimesXpow(f, c, 8 * n);
    var u := MulXn(f.P, c, 8 * n);
    MulXnBound(f.P, c, f.D, 8 * n);
    XorBound(u, canon, f.D);
    var a := Xor(u, canon);
    TimesDistributes(f, a, f.One(), f.Xpow(8));
    TimesOne(f, a);
    TimesXpow(f, a, 8);
    MulXnLinear(f.P, u, canon, 8);
    MulXnAdd(f.P, c, 8 * n, 8);
    XorSwap(u, canon, MulXn(f.P, u, 8), MulXn(f.P, canon, 8));
  }

  /** The register after a window and the next byte, seen from the next window. */
  lemma ShiftWindow(P: nat, c: nat, data: seq<Byte>, n: nat, k: nat)
    requires k + n + 1 <= |data|
    ensures MulXn(P, Xor(Raw(P, c, Window(data, n, k)), data[k + n]), 8)
            == Xor(Xor(MulXn(P, c, 8 * n), Xor(MulXn(P, c, 8 * n + 8), MulXn(P, data[k], 8 * n + 8))),
                   Raw(P, c, Window(data, n, k + 1)))
  {
    hide Xor, MulXn, Raw;
    var long := data[k..k + n + 1];
    var next := Window(data, n, k + 1);
    assert long[..n] == Window(data, n, k);
    FeedByte(P, c, long, n);
    assert long[..n + 1] == long;
    RawCons(P, c, long);
    assert long[1..] == next;
    var d := MulXn(P, Xor(c, data[k]), 8);
    var m := Xor(d, c);
    XorCancel(d, c);
    assert Xor(m, c) == d;
    RawLinear(P, m, c, next);
    MulXnLinear(P, d, c, 8 * n);
    MulXnAdd(P, Xor(c, data[k]), 8, 8 * n);
    MulXnLinear(P, c, data[k], 8 * n + 8);
    XorComm(MulXn(P, d, 8 * n), MulXn(P, c, 8 * n));
  }

  lemma RawCons(P: nat, crc: nat, msg: seq<Byte>)
    requires |msg| > 0
    ensures Raw(P, crc, msg) == Raw(P, MulXn(P, Xor(crc, msg[0]), 8), msg[1..])
  {
  }

  /** Cancelling everything but the CRC of the next window. */
  lemma CancelTerms(u: nat, v: nat, o: nat, r: nat, k8: nat, canon: nat)
    ensures Xor(Xor(Xor(Xor(u, Xor(v, o)), r), k8), Xor(o, Xor(Xor(u, v), Xor(canon, k8)))) == Xor(r, canon)
  {
    hide Xor;
    var t := Xor(u, v);
    XorAssoc(u, v, o);
    var a := Xor(t, o);
    XorAssoc(o, t, Xor(canon, k8));
    XorComm(o, t);
    // (a ^ r ^ k8) ^ (a ^ (canon ^ k8))
    XorAssoc(a, r, k8);
    XorSwap(a, Xor(r, k8), a, Xor(canon, k8));
    XorSelf(a);
    XorZero(Xor(Xor(r, k8), Xor(canon, k8)));
    XorSwap(r, k8, canon, k8);
    XorSelf(k8);
    XorZero(Xor(r, canon));
  }

  /** One roll turns the CRC of a window into the CRC of the next one. */
  lemma RollMovesWindow(f: Field, canon: nat, start: nat, n: nat, data: seq<Byte>, k: nat)
    requires f.Valid() && f.Has(canon) && f.Has(start) && k + n + 1 <= |data|
    ensures Rolled(f, canon, start, n, Value(f.P, canon, Window(data, n, k), start), data[k], data[k + n])
            == Value(f.P, canon, Window(data, n, k + 1), start)
  {
    hide Xor, MulXn, Mul, Raw, Pow2, Window, Constant;
    var c := Xor(start, canon);
    var r, i := Raw(f.P, c, Window(data, n, k)), data[k + n];
    ShiftWindow(f.P, c, data, n, k);
    XorAssoc(r, canon, i);
    XorComm(canon, i);
    XorAssoc(r, i, canon);
    MulXnLinear(f.P, Xor(r, i), canon, 8);
    ConstantExpanded(f, canon, start, n);
    CancelTerms(MulXn(f.P, c, 8 * n), MulXn(f.P, c, 8 * n + 8), MulXn(f.P, data[k], 8 * n + 8),
                Raw(f.P, c, Window(data, n, k + 1)), MulXn(f.P, canon, 8), canon);
  }

  /** Over every run of rolls the value is the CRC of the current window from scratch. */
  lemma {:induction false} RollingIsFromScratch(f: Field, canon: nat, start: nat, n: nat, data: seq<Byte>, k: nat)
    requires f.Valid() && f.Has(canon) && f.Has(start) && k + n <= |data|
    ensures AfterRolls(f, canon, start, n, data, k) == Value(f.P, canon, Window(data, n, k), start)
  {
    hide Rolled, Value, Window;
    if k > 0 {
      RollingIsFromScratch(f, canon, start, n, data, k - 1);
      RollMovesWindow(f, canon, start, n, data, k - 1);
    }
  }

  /** Fills the corrections for the bytes that leave. */
  method FillOut(crc: Engine, window: nat, start: nat, outs: array<nat>)
    requires crc.Valid() && crc.f.Has(start) && 8 * window + crc.f.D < WORD && outs.Length == 256
    requires outs != crc.powers
    modifies outs
    ensures forall v: Byte :: outs[v] == Out(crc.f, crc.canon, start, window, v)
  {
    hide Xor, MulXn, Mul, PowersOfX, Pow2, Out, TableHolds;
    var f := crc.f;
    XorBound(crc.canon, start, f.D);
    XpowIn(f, 8 * window);
    XpowIn(f, 8);
    OneIn(f);
    var power := XpowN(f, crc.powers, 8 * window);
    var add := Multiply(f, Xor(crc.canon, start), power);
    TimesClosed(f, Xor(crc.canon, start), power);
    XorBound(add, crc.canon, f.D);
    add := Xor(add, crc.canon);
    var x8 := XpowN(f, crc.powers, 8);
    XorBound(f.One(), x8, f.D);
    add := Multiply(f, add, Xor(f.One(), x8));
    var mul := XpowN(f, crc.powers, 8 * window + f.D);
    XpowIn(f, 8 * window + f.D);
    for i := 0 to 256
      invariant forall v: Byte :: v < i ==> outs[v] == Out(f, crc.canon, start, window, v)
    {
      Pow2Of8();
      var t := MultiplyUnnormalized(f, crc.powers, i, 8, mul);
      UnnormalizedIsShift(f, i, 8, 8 * window + f.D);
      OutIs(f, crc.canon, start, window, i);
      outs[i] := Xor(t, add);
    }
  }

  class Roller {
    const crc: Engine
    const window: nat
    const start: nat
    const inTable: array<nat>
    const outTable: array<nat>

    ghost predicate Valid()
      reads crc.powers, crc.table, crc.interleaved, inTable, outTable
    {
      && crc.Valid() && crc.f.Has(start) && inTable.Length == outTable.Length == 256
      && forall v: Byte :: inTable[v] == MulXn(crc.f.P, v, 8) && outTable[v] == Out(crc.f, crc.canon, start, window, v)
    }

    constructor (crc: Engine, window: nat, start: nat)
      requires crc.Valid() && crc.f.Has(start) && 8 * window + crc.f.D < WORD
      ensures Valid() && this.crc == crc && this.window == window && this.start == start
    {
      hide Xor, MulXn, Mul, PowersOfX, Pow2, Out;
      this.crc, this.window, this.start := crc, window, start;
      var outs := new nat[256];
      FillOut(crc, window, start, outs);
      var ins := new nat[256];
      for i := 0 to 256
        invariant forall v: Byte :: v < i ==> ins[v] == MulXn(crc.f.P, v, 8)
        invariant forall v: Byte :: outs[v] == Out(crc.f, crc.canon, start, window, v)
      {
        LastRow(crc.f.P, crc.table, crc.w, i);
        ins[i] := crc.table[crc.w - 1, i];
      }
      inTable, outTable := ins, outs;
    }

    /** The CRC of the first window. */
    method Start(data: seq<Byte>, addr: nat) returns (r: nat)
      requires Valid() && |data| == window
      ensures r == Value(crc.f.P, crc.canon, data, start)
    {
      hide Xor, MulXn, Mul, PowersOfX, Out, TableHolds, Value;
      Pow2Monotone(crc.f.D, crc.bits);
      r := crc.CrcMultiword(data, addr, start);
    }

    method Roll(previous: nat, byteOut: Byte, byteIn: Byte) returns (r: nat)
      requires Valid()
      ensures r == Rolled(crc.f, crc.canon, start, window, previous, byteOut, byteIn)
    {
      hide Xor, MulXn, Mul, PowersOfX, Out, TableHolds;
      ByteLookup(crc.f.P, previous, byteIn);
      r := Xor(Xor(previous / 256, inTable[Xor(previous % 256, byteIn)]), outTable[byteOut]);
    }
  }

  lemma OutIs(f: Field, canon: nat, start: nat, n: nat, v: Byte)
    requires f.D > 0
    ensures Out(f, canon, start, n, v) == Xor(MulXn(f.P, v, 8 * n + 8), Constant(f, canon, start, n))
  {
  }

  lemma LastRow(P: nat, t: array2<nat>, w: nat, v: Byte)
    requires t.Length0 == w && w > 0 && TableHolds(P, t, 8 * w)
    ensures t[w - 1, v] == MulXn(P, v, 8)
  {
    hide MulXn;
    assert 8 * w - 8 * (w - 1) == 8;
  }
}
