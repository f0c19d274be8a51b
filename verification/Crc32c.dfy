/** CRC-32C with three stripes per block, multiplication tables to join them, and word and
    byte tails.  The crc32 instruction is the software word step. */
module Crc32c {
  import opened RingMath
  import opened Wire
  import opened Bits
  import opened Gf
  import opened Crc
  import opened GfUtil
  import opened GenericCrc

  /** The Castagnoli polynomial, section 12.1 of RFC 3720, bit-reversed. */
  const CASTAGNOLI := Field(0x82f63b78, 32)

  const W: nat := 8                 // bytes per word
  const TABLES: nat := 4            // bytes per register
  const UNROLLED: nat := 8          // words per round in a stripe

  /** A third of a block, rounded down to whole words. */
  function StripeSize(block: nat): (n: nat)
    ensures n % W == 0
  {
    block / 3 / W * W
  }

  lemma CastagnoliValid()
    ensures CASTAGNOLI.Valid()
  {
    Pow2Small();
  }

  lemma StripeSizes()
    ensures StripeSize(512) == 168 && StripeSize(1024) == 336 && StripeSize(4096) == 1360 && StripeSize(32768) == 10920
  {
  }

  // ---- multiplication tables -----------------------------------------------------------

  /** Row `i` multiplies byte `i` of a register by x^n. */
  ghost predicate MulHolds(f: Field, t: array2<nat>, n: nat)
    reads t
  {
    && t.Length0 == TABLES && t.Length1 == 256
    && forall i, v :: 0 <= i < TABLES && 0 <= v < 256 ==> t[i, v] == MulXn(f.P, v * Pow2(8 * i), n)
  }

  lemma ByteAt(v: nat, i: nat)
    requires v < 256 && i < TABLES
    ensures v * Pow2(8 * i) < Pow2(32)
  {
    hide Pow2;
    Pow2Small();
    if i == 0 {
      assert 8 * i == 0;
    } else if i == 1 {
      assert 8 * i == 8;
    } else if i == 2 {
      assert 8 * i == 16;
    } else {
      assert 8 * i == 24;
    }
  }

  /** The multiplication table for stripes of `stripe` bytes. */
  method NewMul(f: Field, powers: array<nat>, stripe: nat) returns (t: array2<nat>)
    requires f.Valid() && f.D == 32 && PowersOfX(f, powers[..]) && 8 * stripe < WORD
    ensures fresh(t) && MulHolds(f, t, 8 * stripe)
  {
    hide Xor, MulXn, Mul, PowersOfX, Pow2;
    var multiplier := XpowN(f, powers, 8 * stripe);
    XpowIn(f, 8 * stripe);
    t := new nat[TABLES, 256];
    for i := 0 to TABLES
      invariant forall a, v :: 0 <= a < i && 0 <= v < 256 ==> t[a, v] == MulXn(f.P, v * Pow2(8 * a), 8 * stripe)
    {
      for e := 0 to 256
        invariant forall a, v :: 0 <= a < i && 0 <= v < 256 ==> t[a, v] == MulXn(f.P, v * Pow2(8 * a), 8 * stripe)
        invariant forall v :: 0 <= v < e ==> t[i, v] == MulXn(f.P, v * Pow2(8 * i), 8 * stripe)
      {
        ByteAt(e, i);
        TimesXpow(f, e * Pow2(8 * i), 8 * stripe);
        var value := Multiply(f, e * Pow2(8 * i), multiplier);
        t[i, e] := value;
      }
    }
  }

  /** The word table, entry by entry. */
  method FillWords(f: Field, powers: array<nat>, t: array2<nat>)
    requires f.Valid() && f.D == 32 && PowersOfX(f, powers[..])
    requires t.Length0 == W && t.Length1 == 256
    modifies t
    ensures TableHolds(f.P, t, 8 * W)
  {
    hide Xor, MulXn, Mul, PowersOfX, Pow2;
    for j := 0 to W
      invariant forall a, v :: 0 <= a < j && 0 <= v < 256 ==> t[a, v] == MulXn(f.P, v, 8 * W - 8 * a)
    {
      var n := (W - 1 - j) * 8 + 32;
      var k := XpowN(f, powers, n);
      XpowIn(f, n);
      for i := 0 to 256
        invariant forall a, v :: 0 <= a < j && 0 <= v < 256 ==> t[a, v] == MulXn(f.P, v, 8 * W - 8 * a)
        invariant forall v :: 0 <= v < i ==> t[j, v] == MulXn(f.P, v, 8 * W - 8 * j)
      {
        Pow2Of8();
        UnnormalizedIsShift(f, i, 8, n);
        var value := MultiplyUnnormalized(f, powers, i, 8, k);
        t[j, i] := value;
      }
    }
  }

  /** A register is the sum of its four bytes. */
  lemma FourBytes(c: nat, b0: nat, b1: nat, b2: nat, b3: nat)
    requires b0 < 256 && b1 < 256 && b2 < 256 && c == b0 + 0x100 * b1 + 0x1_0000 * b2 + 0x100_0000 * b3
    ensures c == Xor(Xor(b0 * Pow2(0), b1 * Pow2(8)), Xor(b2 * Pow2(16), b3 * Pow2(24)))
  {
    hide Pow2, Xor;
    Pow2Small();
    XorDisjoint(b0, b1, 8);
    XorDisjoint(b2 * 0x1_0000, b3, 24);
    XorDisjoint(b0 + b1 * 256, b2 + b3 * 256, 16);
  }

  lemma Pow2Small()
    ensures Pow2(0) == 1 && Pow2(8) == 0x100 && Pow2(16) == 0x1_0000 && Pow2(24) == 0x100_0000
    ensures Pow2(32) == 0x1_0000_0000
  {
    assert Pow2(8) == 0x100;
    assert Pow2(16) == 0x1_0000;
    assert Pow2(24) == 0x100_0000;
  }

  /** A register times x^n, both halves of it side by side. */
  method MultiplyCrc(f: Field, t: array2<nat>, crc: nat, ghost n: nat) returns (r: nat)
    requires f.D == 32 && f.Has(crc) && MulHolds(f, t, n)
    ensures r == MulXn(f.P, crc, n)
  {
    hide Xor, MulXn, Pow2;
    Pow2Small();
    var tmp0, tmp1 := crc, crc / 0x1_0000;
    ghost var b0, b1, b2, b3 := crc % 256, crc / 256 % 256, tmp1 % 256, tmp1 / 256;
    r := t[0, tmp0 % 256];
    tmp0 := tmp0 / 256;
    var hi := t[2, tmp1 % 256];
    tmp1 := tmp1 / 256;
    r := Xor(r, t[1, tmp0 % 256]);
    hi := Xor(hi, t[3, tmp1]);
    r := Xor(r, hi);
    FourBytes(crc, b0, b1, b2, b3);
    ghost var p0, p1, p2, p3 := b0 * Pow2(0), b1 * Pow2(8), b2 * Pow2(16), b3 * Pow2(24);
    MulXnLinear(f.P, p0, p1, n);
    MulXnLinear(f.P, p2, p3, n);
    MulXnLinear(f.P, Xor(p0, p1), Xor(p2, p3), n);
  }

  // ---- the register along the data -----------------------------------------------------

  /** The register, one word wide, after the first `pos` bytes. */
  ghost predicate At(f: Field, init: nat, data: seq<Byte>, pos: nat, crc: nat)
  {
    && init < Pow2(8 * W) && crc < Pow2(8 * W)
    && pos <= |data| && crc == Raw(f.P, init, data[..pos])
  }

  /** After one word of data the register is a residue, whatever it held before. */
  lemma AtHas(f: Field, init: nat, data: seq<Byte>, pos: nat, crc: nat)
    requires f.Valid() && f.D <= 8 * W && At(f, init, data, pos, crc) && pos >= W
    ensures f.Has(crc)
  {
    hide Raw;
    Pow2Monotone(8 * W, 8 * pos);
    RawShrinks(f, init, data[..pos]);
  }

  /** The three registers of a block at `base`, all of them `at` bytes into their stripes. */
  ghost predicate Stripes(f: Field, init: nat, data: seq<Byte>, base: nat, stripe: nat, at: nat, c0: nat, c1: nat,
                          c2: nat)
  {
    && at <= stripe && base + 3 * stripe <= |data|
    && At(f, init, data, base + at, c0)
    && At(f, 0, data[base + stripe..base + 2 * stripe], at, c1)
    && At(f, 0, data[base + 2 * stripe..base + 3 * stripe], at, c2)
  }

  /** Joining the three stripes. */
  lemma StripesJoined(f: Field, init: nat, data: seq<Byte>, base: nat, stripe: nat, c0: nat, c1: nat, c2: nat)
    requires f.Valid() && f.D <= 8 * W && Stripes(f, init, data, base, stripe, stripe, c0, c1, c2)
    ensures At(f, init, data, base + 2 * stripe, Xor(MulXn(f.P, c0, 8 * stripe), c1))
    ensures At(f, init, data, base + 3 * stripe, Xor(MulXn(f.P, Xor(MulXn(f.P, c0, 8 * stripe), c1), 8 * stripe), c2))
  {
    hide At, Xor, MulXn;
    JoinOne(f, init, data, base + stripe, stripe, c0, c1);
    JoinOne(f, init, data, base + 2 * stripe, stripe, Xor(MulXn(f.P, c0, 8 * stripe), c1), c2);
  }

  lemma JoinOne(f: Field, init: nat, data: seq<Byte>, pos: nat, stripe: nat, a: nat, c: nat)
    requires f.Valid() && f.D <= 8 * W && pos + stripe <= |data| && At(f, init, data, pos, a)
    requires At(f, 0, data[pos..pos + stripe], stripe, c)
    ensures At(f, init, data, pos + stripe, Xor(MulXn(f.P, a, 8 * stripe), c))
  {
    hide Xor, MulXn, Raw, Pow2;
    var s := data[pos..pos + stripe];
    assert s[..stripe] == s;
    assert data[..pos + stripe] == data[..pos] + s;
    RawAppend(f.P, init, data[..pos], s);
    JoinStripe(f.P, a, s);
    XorComm(c, MulXn(f.P, a, 8 * stripe));
    Pow2Monotone(f.D, 8 * W);
    RawBound(f.P, a, s, 8 * W);
  }

  class Engine32c {
    const f: Field
    const canon: nat
    const powers: array<nat>
    const table: array2<nat>
    const mul512: array2<nat>
    const mul1024: array2<nat>
    const mul4096: array2<nat>
    const mul32768: array2<nat>

    ghost predicate Valid()
      reads powers, table, mul512, mul1024, mul4096, mul32768
    {
      && f == CASTAGNOLI && f.Valid() && f.Has(canon)
      && table.Length0 == W && TableHolds(f.P, table, 8 * W)
      && MulHolds(f, mul512, 8 * StripeSize(512)) && MulHolds(f, mul1024, 8 * StripeSize(1024))
      && MulHolds(f, mul4096, 8 * StripeSize(4096)) && MulHolds(f, mul32768, 8 * StripeSize(32768))
    }

    constructor (canonical: bool)
      ensures Valid()
      ensures canon == if canonical then Pow2(32) - 1 else 0
    {
      hide Xor, MulXn, Mul, PowersOfX, Pow2, MulHolds, TableHolds, StripeSize;
      StripeSizes();
      CastagnoliValid();
      f := CASTAGNOLI;
      canon := if canonical then 2 * CASTAGNOLI.One() - 1 else 0;
      FullMask();
      var p := new nat[LOG_ENTRIES];
      PowerTable(CASTAGNOLI, p);
      var a := NewMul(CASTAGNOLI, p, StripeSize(512));
      var b := NewMul(CASTAGNOLI, p, StripeSize(1024));
      var c := NewMul(CASTAGNOLI, p, StripeSize(4096));
      var d := NewMul(CASTAGNOLI, p, StripeSize(32768));
      var t := new nat[W, 256];
      FillWords(CASTAGNOLI, p, t);
      powers, table, mul512, mul1024, mul4096, mul32768 := p, t, a, b, c, d;
    }

    method UpdateByte(data: seq<Byte>, pos: nat, crc: nat, ghost init: nat) returns (r: nat)
      requires Valid() && At(f, init, data, pos, crc) && pos < |data|
      ensures At(f, init, data, pos + 1, r)
    {
      hide Xor, MulXn, Raw, Pow2, MulHolds;
      FeedByte(f.P, init, data, pos);
      ByteLookup(f.P, crc, data[pos]);
      r := Xor(crc / 256, table[W - 1, Xor(crc % 256, data[pos])]);
      NextFits(f, crc, data[pos]);
    }

    /** The word step of the register `crc`, which has read `data[..pos]`. */
    method UpdateWord(data: seq<Byte>, pos: nat, crc: nat, ghost init: nat) returns (r: nat)
      requires Valid() && At(f, init, data, pos, crc) && pos + W <= |data|
      ensures At(f, init, data, pos + W, r)
    {
      hide Xor, MulXn, Raw, Pow2, MulHolds, WordOf;
      FeedWord(f.P, init, data, pos, W);
      var buf := WordOf(data[pos..pos + W]);
      WordBound(data[pos..pos + W]);
      XorBound(buf, crc, 8 * W);
      r := LookUpWord(f.P, table, Xor(buf, crc), 8 * W);
      Pow2Monotone(f.D, 8 * W);
      MulXnBound(f.P, Xor(buf, crc), 8 * W, 8 * W);
    }

    /** One word of each stripe. */
    method UpdateStripes(data: seq<Byte>, base: nat, stripe: nat, at: nat, x0: nat, x1: nat, x2: nat, ghost init: nat)
      returns (c0: nat, c1: nat, c2: nat)
      requires Valid() && Stripes(f, init, data, base, stripe, at, x0, x1, x2) && at + W <= stripe
      ensures Stripes(f, init, data, base, stripe, at + W, c0, c1, c2)
    {
      hide At;
      c0 := UpdateWord(data, base + at, x0, init);
      c1 := UpdateWord(data[base + stripe..base + 2 * stripe], at, x1, 0);
      c2 := UpdateWord(data[base + 2 * stripe..base + 3 * stripe], at, x2, 0);
    }

    /** All whole blocks of three stripes. */
    method ProcessBlocks(data: seq<Byte>, from: nat, x: nat, stripe: nat, t: array2<nat>, ghost init: nat)
      returns (src: nat, crc: nat)
      requires Valid() && stripe % W == 0 && stripe >= W * UNROLLED && MulHolds(f, t, 8 * stripe)
      requires At(f, init, data, from, x)
      ensures At(f, init, data, src, crc) && |data| - src < 3 * stripe
    {
      hide At, Stripes, MulHolds, TableHolds, Xor, MulXn, Pow2;
      src, crc := from, x;
      AtBound(f, init, data, src, crc);
      while |data| - src >= 3 * stripe
        invariant At(f, init, data, src, crc) && src <= |data|
        decreases |data| - src
      {
        crc, src := OneBlock(data, src, crc, stripe, t, init);
      }
    }

    /** One block: eight words of each stripe per round, the rest word by word. */
    method OneBlock(data: seq<Byte>, src: nat, x: nat, stripe: nat, t: array2<nat>, ghost init: nat)
      returns (crc: nat, next: nat)
      requires Valid() && stripe % W == 0 && stripe >= W * UNROLLED && MulHolds(f, t, 8 * stripe)
      requires At(f, init, data, src, x) && src + 3 * stripe <= |data|
      ensures next == src + 3 * stripe && At(f, init, data, next, crc)
    {
      hide At, Stripes, MulHolds, TableHolds, Xor, MulXn, Pow2;
      StripesStart(f, init, data, src, stripe, x);
      var stop := stripe / (W * UNROLLED) * (W * UNROLLED);
      Rounds(stripe, stop);
      var c1: nat, c2: nat;
      crc, c1, c2 := UnrolledPart(data, src, stripe, stop, x, init);
      var at := stop;
      if stripe % (W * UNROLLED) != 0 {
        crc, c1, c2 := RestPart(data, src, stripe, stop, crc, c1, c2, init);
        at := stripe;
      }
      crc := Combine(data, src, stripe, crc, c1, c2, t, init);
      next := src + at + stripe * 2;
    }

    method UnrolledPart(data: seq<Byte>, src: nat, stripe: nat, stop: nat, x: nat, ghost init: nat)
      returns (c0: nat, c1: nat, c2: nat)
      requires Valid() && Stripes(f, init, data, src, stripe, 0, x, 0, 0)
      requires 0 < stop <= stripe && stop % (W * UNROLLED) == 0
      ensures Stripes(f, init, data, src, stripe, stop, c0, c1, c2)
    {
      hide At, Stripes, MulHolds, TableHolds, Xor, MulXn, Pow2;
      c0, c1, c2 := x, 0, 0;
      var at: nat := 0;
      while true
        invariant at < stop && at % (W * UNROLLED) == 0
        invariant Stripes(f, init, data, src, stripe, at, c0, c1, c2)
        decreases stop - at
      {
        RoundLeft(at, stop);
        c0, c1, c2 := UnrolledRound(data, src, stripe, at, c0, c1, c2, init);
        at := at + W * UNROLLED;
        if at >= stop {
          break;
        }
      }
    }

    method RestPart(data: seq<Byte>, src: nat, stripe: nat, from: nat, x0: nat, x1: nat, x2: nat, ghost init: nat)
      returns (c0: nat, c1: nat, c2: nat)
      requires Valid() && Stripes(f, init, data, src, stripe, from, x0, x1, x2)
      requires from < stripe && from % W == 0 && stripe % W == 0
      ensures Stripes(f, init, data, src, stripe, stripe, c0, c1, c2)
    {
      hide At, Stripes, MulHolds, TableHolds, Xor, MulXn, Pow2;
      c0, c1, c2 := x0, x1, x2;
      var at: nat := from;
      while true
        invariant at < stripe && at % W == 0
        invariant Stripes(f, init, data, src, stripe, at, c0, c1, c2)
        decreases stripe - at
      {
        WordLeft(at, stripe);
        c0, c1, c2 := UpdateStripes(data, src, stripe, at, c0, c1, c2, init);
        at := at + W;
        if at >= stripe {
          break;
        }
      }
    }

    method UnrolledRound(data: seq<Byte>, base: nat, stripe: nat, at: nat, x0: nat, x1: nat, x2: nat, ghost init: nat)
      returns (c0: nat, c1: nat, c2: nat)
      requires Valid() && Stripes(f, init, data, base, stripe, at, x0, x1, x2) && at + W * UNROLLED <= stripe
      ensures Stripes(f, init, data, base, stripe, at + W * UNROLLED, c0, c1, c2)
    {
      hide At, Stripes, MulHolds, TableHolds;
      c0, c1, c2 := UpdateStripes(data, base, stripe, at, x0, x1, x2, init);
      c0, c1, c2 := UpdateStripes(data, base, stripe, at + 1 * W, c0, c1, c2, init);
      c0, c1, c2 := UpdateStripes(data, base, stripe, at + 2 * W, c0, c1, c2, init);
      c0, c1, c2 := UpdateStripes(data, base, stripe, at + 3 * W, c0, c1, c2, init);
      c0, c1, c2 := UpdateStripes(data, base, stripe, at + 4 * W, c0, c1, c2, init);
      c0, c1, c2 := UpdateStripes(data, base, stripe, at + 5 * W, c0, c1, c2, init);
      c0, c1, c2 := UpdateStripes(data, base, stripe, at + 6 * W, c0, c1, c2, init);
      c0, c1, c2 := UpdateStripes(data, base, stripe, at + 7 * W, c0, c1, c2, init);
    }

    method Combine(data: seq<Byte>, base: nat, stripe: nat, c0: nat, c1: nat, c2: nat, t: array2<nat>, ghost init: nat)
      returns (crc: nat)
      requires Valid() && MulHolds(f, t, 8 * stripe) && stripe >= W
      requires Stripes(f, init, data, base, stripe, stripe, c0, c1, c2)
      ensures At(f, init, data, base + 3 * stripe, crc)
    {
      hide Stripes, TableHolds, MulHolds, Xor, MulXn, Pow2, Raw;
      StripesHold(f, init, data, base, stripe, stripe, c0, c1, c2);
      StripesJoined(f, init, data, base, stripe, c0, c1, c2);
      AtHas(f, init, data, base + 2 * stripe, Xor(MulXn(f.P, c0, 8 * stripe), c1));
      crc := MultiplyCrc(f, t, c0, 8 * stripe);
      crc := Xor(crc, c1);
      crc := MultiplyCrc(f, t, crc, 8 * stripe);
      crc := Xor(crc, c2);
    }

    /** Four words of the tail. */
    method UpdateWord4(data: seq<Byte>, pos: nat, x: nat, ghost init: nat) returns (crc: nat)
      requires Valid() && At(f, init, data, pos, x) && pos + 4 * W <= |data|
      ensures At(f, init, data, pos + 4 * W, crc)
    {
      hide At, MulHolds, TableHolds;
      crc := UpdateWord(data, pos, x, init);
      crc := UpdateWord(data, pos + W, crc, init);
      crc := UpdateWord(data, pos + 2 * W, crc, init);
      crc := UpdateWord(data, pos + 3 * W, crc, init);
    }

    /** Blocks of all sizes, the largest first; sizes that cannot occur are skipped. */
    method AllBlocks(data: seq<Byte>, from: nat, x: nat, ghost init: nat) returns (src: nat, crc: nat)
      requires Valid() && At(f, init, data, from, x) && from < |data|
      ensures At(f, init, data, src, crc)
    {
      hide At, MulHolds, TableHolds, StripeSize;
      StripeSizes();
      src, crc := from, x;
      var bytes := |data| - src;
      if bytes >= 3 * StripeSize(1024) {
        if bytes >= 3 * StripeSize(4096) {
          if bytes >= 3 * StripeSize(32768) {
            src, crc := ProcessBlocks(data, src, crc, StripeSize(32768), mul32768, init);
          }
          src, crc := ProcessBlocks(data, src, crc, StripeSize(4096), mul4096, init);
        }
        src, crc := ProcessBlocks(data, src, crc, StripeSize(1024), mul1024, init);
      }
      src, crc := ProcessBlocks(data, src, crc, StripeSize(512), mul512, init);
    }

    /** Aligns long inputs, then runs the blocks. */
    method Blocks(data: seq<Byte>, addr: nat, x: nat, ghost init: nat) returns (src: nat, crc: nat)
      requires Valid() && At(f, init, data, 0, x)
      ensures At(f, init, data, src, crc)
    {
      hide At, MulHolds, TableHolds;
      src, crc := 0, x;
      if |data| >= 2 * 1024 {
        while (addr + src) % W != 0
          invariant src <= |data| && At(f, init, data, src, crc)
          decreases |data| - src
        {
          if src >= |data| {
            return;
          }
          crc := UpdateByte(data, src, crc, init);
          src := src + 1;
        }
      }
      if src >= |data| {
        return;
      }
      src, crc := AllBlocks(data, src, crc, init);
    }

    /** What is done with at least sixteen words, up to the shorter tails. */
    method Long(data: seq<Byte>, addr: nat, x: nat, ghost init: nat) returns (src: nat, crc: nat)
      requires Valid() && At(f, init, data, 0, x)
      ensures At(f, init, data, src, crc)
    {
      hide At, MulHolds, TableHolds, StripeSize;
      src, crc := 0, x;
      if |data| >= 3 * StripeSize(512) {
        src, crc := Blocks(data, addr, crc, init);
      }
      AtBound(f, init, data, src, crc);
      if |data| - src >= 16 * W {
        while true
          invariant src + 16 * W <= |data| && At(f, init, data, src, crc)
          decreases |data| - src
        {
          crc := UpdateWord4(data, src, crc, init);
          crc := UpdateWord4(data, src + 4 * W, crc, init);
          crc := UpdateWord4(data, src + 8 * W, crc, init);
          crc := UpdateWord4(data, src + 12 * W, crc, init);
          src := src + 16 * W;
          if src + 16 * W > |data| {
            break;
          }
        }
      }
    }

    method Crc32c(data: seq<Byte>, addr: nat, start: nat) returns (crc: nat)
      requires Valid() && start < Pow2(8 * W)
      ensures crc == Value(CASTAGNOLI.P, canon, data, start)
    {
      hide At, MulHolds, TableHolds, Xor, Raw, Pow2, StripeSize;
      ghost var init := Xor(start, canon);
      crc := Xor(start, canon);
      Pow2Monotone(32, 8 * W);
      XorBound(start, canon, 8 * W);
      AtStart(f, init, data);
      var src: nat := 0;
      if |data| >= 4 * W {
        if |data| >= 8 * W {
          if |data| >= 16 * W {
            src, crc := Long(data, addr, crc, init);
            AtBound(f, init, data, src, crc);
          }
          if |data| - src >= 8 * W {
            crc := UpdateWord4(data, src, crc, init);
            crc := UpdateWord4(data, src + 4 * W, crc, init);
            src := src + 8 * W;
          }
        }
        if |data| - src >= 4 * W {
          crc := UpdateWord4(data, src, crc, init);
          src := src + 4 * W;
        }
      }
      if |data| - src >= W {
        while true
          invariant src + W <= |data| && At(f, init, data, src, crc)
          decreases |data| - src
        {
          crc := UpdateWord(data, src, crc, init);
          src := src + W;
          if src + W > |data| {
            break;
          }
        }
      }
      while src < |data|
        invariant src <= |data| && At(f, init, data, src, crc)
        decreases |data| - src
      {
        crc := UpdateByte(data, src, crc, init);
        src := src + 1;
      }
      AtEnd(f, init, data, crc);
      crc := Xor(crc, canon);
    }
  }

  lemma Rounds(stripe: nat, stop: nat)
    requires stripe % W == 0 && stripe >= W * UNROLLED && stop == stripe / (W * UNROLLED) * (W * UNROLLED)
    ensures 0 < stop <= stripe && stop % (W * UNROLLED) == 0 && stop % W == 0
    ensures stop == stripe <==> stripe % (W * UNROLLED) == 0
  {
    var q := stripe / 64;
    assert stripe == q * 64 + stripe % 64;
    RemainderUnique(stop, 64, q, 0);
    RemainderUnique(stop, 8, 8 * q, 0);
  }

  lemma RoundLeft(at: nat, stop: nat)
    requires at < stop && at % (W * UNROLLED) == 0 && stop % (W * UNROLLED) == 0
    ensures at + W * UNROLLED <= stop && (at + W * UNROLLED) % (W * UNROLLED) == 0
  {
  }

  lemma WordLeft(at: nat, stop: nat)
    requires at < stop && at % W == 0 && stop % W == 0
    ensures at + W <= stop && (at + W) % W == 0
  {
  }

  lemma FullMask()
    ensures 2 * CASTAGNOLI.One() == Pow2(32)
  {
  }

  lemma NextFits(f: Field, crc: nat, b: Byte)
    requires f.Valid() && f.D <= 8 * W && crc < Pow2(8 * W)
    ensures MulXn(f.P, Xor(crc, b), 8) < Pow2(8 * W)
  {
    hide Xor, MulXn;
    Pow2Of8();
    Pow2Monotone(8, 8 * W);
    Pow2Monotone(f.D, 8 * W);
    XorBound(crc, b, 8 * W);
    MulXnBound(f.P, Xor(crc, b), 8 * W, 8);
  }

  lemma AtBound(f: Field, init: nat, data: seq<Byte>, pos: nat, crc: nat)
    requires At(f, init, data, pos, crc)
    ensures pos <= |data|
  {
  }

  lemma AtStart(f: Field, init: nat, data: seq<Byte>)
    requires init < Pow2(8 * W)
    ensures At(f, init, data, 0, init)
  {
    RawNone(f.P, init, data);
  }

  lemma AtEnd(f: Field, init: nat, data: seq<Byte>, crc: nat)
    requires At(f, init, data, |data|, crc)
    ensures crc == Raw(f.P, init, data)
  {
    assert data[..|data|] == data;
  }

  lemma StripesStart(f: Field, init: nat, data: seq<Byte>, base: nat, stripe: nat, crc: nat)
    requires base + 3 * stripe <= |data| && At(f, init, data, base, crc)
    ensures Stripes(f, init, data, base, stripe, 0, crc, 0, 0)
  {
    hide Raw, Pow2;
    RawNone(f.P, 0, data[base + stripe..base + 2 * stripe]);
    RawNone(f.P, 0, data[base + 2 * stripe..base + 3 * stripe]);
  }

  lemma StripesHold(f: Field, init: nat, data: seq<Byte>, base: nat, stripe: nat, at: nat, c0: nat, c1: nat, c2: nat)
    requires f.Valid() && f.D <= 8 * W && Stripes(f, init, data, base, stripe, at, c0, c1, c2) && at >= W
    ensures f.Has(c0) && f.Has(c1) && f.Has(c2)
  {
    hide At;
    AtHas(f, init, data, base + at, c0);
    AtHas(f, 0, data[base + stripe..base + 2 * stripe], at, c1);
    AtHas(f, 0, data[base + 2 * stripe..base + 3 * stripe], at, c2);
  }
}
