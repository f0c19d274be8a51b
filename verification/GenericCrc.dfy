/** The table-driven CRC loops.  All of them equal the byte-at-a-time CRC. */
module GenericCrc {
  import opened RingMath
  import opened Wire
  import opened Bits
  import opened Gf
  import opened Crc
  import opened GfUtil

  // ---- tables --------------------------------------------------------------------------

  /** A table for feeding the bytes of a word into x^n: row `j` is for byte `j`. */
  ghost predicate TableHolds(P: nat, t: array2<nat>, n: nat)
    reads t
  {
    && t.Length1 == 256 && n >= 8 * t.Length0
    && forall j, v :: 0 <= j < t.Length0 && 0 <= v < 256 ==> t[j, v] == MulXn(P, v, n - 8 * j)
  }

  /** The doubling step: a power of two plus something smaller. */
  lemma DoublingStep(P: nat, e: nat, m: nat, n: nat)
    requires m < Pow2(e)
    ensures MulXn(P, Pow2(e) + m, n) == Xor(MulXn(P, Pow2(e), n), MulXn(P, m, n))
  {
    XorDisjoint(m, 1, e);
    hide Xor, MulXn;
    MulXnLinear(P, m, Pow2(e), n);
    XorComm(MulXn(P, m, n), MulXn(P, Pow2(e), n));
  }

  /** Fills one row: powers of two by multiplication, everything else by addition. */
  method FillRow(f: Field, powers: array<nat>, t: array2<nat>, j: nat, k: nat, ghost n: nat)
    requires f.Valid() && PowersOfX(f, powers[..]) && j < t.Length0 && t.Length1 == 256
    requires n >= 8 && k == f.Xpow(n - 8 + f.D)
    modifies t
    ensures forall v :: 0 <= v < 256 ==> t[j, v] == MulXn(f.P, v, n)
    ensures forall i, v :: 0 <= i < t.Length0 && i != j && 0 <= v < 256 ==> t[i, v] == old(t[i, v])
  {
    hide Xor, MulXn, Mul, PowersOfX;
    t[j, 0] := 0;
    MulXnZero(f.P, n);
    XpowIn(f, n - 8 + f.D);
    Pow2Of8();
    var i := 1;
    ghost var e: nat := 0;
    while i < 256
      invariant e <= 8 && i == Pow2(e)
      invariant forall v :: 0 <= v < i && v < 256 ==> t[j, v] == MulXn(f.P, v, n)
      invariant forall a, v :: 0 <= a < t.Length0 && a != j && 0 <= v < 256 ==> t[a, v] == old(t[a, v])
      decreases 256 - i
    {
      PowerBelow(e);
      var value := MultiplyUnnormalized(f, powers, i, 8, k);
      UnnormalizedIsShift(f, i, 8, n - 8 + f.D);
      t[j, i] := value;
      for m := 1 to i
        invariant forall v :: 0 <= v < i + m ==> t[j, v] == MulXn(f.P, v, n)
        invariant forall a, v :: 0 <= a < t.Length0 && a != j && 0 <= v < 256 ==> t[a, v] == old(t[a, v])
      {
        DoublingStep(f.P, e, m, n);
        t[j, i + m] := Xor(value, t[j, m]);
      }
      i := 2 * i;
      e := e + 1;
    }
  }

  lemma PowerBelow(e: nat)
    requires e <= 8 && Pow2(e) < 256
    ensures e < 8 && 2 * Pow2(e) <= 256 && Pow2(e + 1) == 2 * Pow2(e)
  {
    Pow2Of8();
    Pow2Monotone(e + 1, 8);
  }

  /** Fills a whole table for x^n. */
  method FillTable(f: Field, powers: array<nat>, t: array2<nat>, n: nat)
    requires f.Valid() && PowersOfX(f, powers[..])
    requires t.Length0 > 0 && t.Length1 == 256 && 8 * t.Length0 <= n && n + f.D < WORD
    modifies t
    ensures TableHolds(f.P, t, n)
  {
    hide Xor, MulXn, Mul, PowersOfX;
    for j := 0 to t.Length0
      invariant forall a, v :: 0 <= a < j && 0 <= v < 256 ==> t[a, v] == MulXn(f.P, v, n - 8 * a)
    {
      var k := XpowN(f, powers, n - 8 * j - 8 + f.D);
      FillRow(f, powers, t, j, k, n - 8 * j);
    }
  }

  // ---- one step ------------------------------------------------------------------------

  lemma XorByte(crc: nat, b: nat)
    requires b < 256
    ensures Xor(crc % 256, b) < 256
    ensures Xor(crc, b) % 256 == Xor(crc % 256, b) && Xor(crc, b) / 256 == crc / 256
  {
    hide Xor;
    Pow2Of8();
    XorBound(crc % 256, b, 8);
    ByteSplit(crc);
    var lo, hi := crc % 256, (crc / 256) * 256;
    XorComm(lo, hi);
    XorAssoc(hi, lo, b);
    XorComm(hi, Xor(lo, b));
    XorDisjoint(Xor(lo, b), crc / 256, 8);
  }

  /** The byte step of the loops: shift out a byte, look up what it turns into. */
  lemma ByteLookup(P: nat, crc: nat, b: nat)
    requires b < 256
    ensures Xor(crc % 256, b) < 256
    ensures Xor(crc / 256, MulXn(P, Xor(crc % 256, b), 8)) == MulXn(P, Xor(crc, b), 8)
  {
    hide Xor, MulXn;
    XorByte(crc, b);
    ByteStep(P, Xor(crc, b), 8);
    MulXnNone(P, crc / 256);
    XorComm(crc / 256, MulXn(P, Xor(crc % 256, b), 8));
  }

  /** Feeds all bytes of `x` through a table for x^n. */
  method LookUpWord(P: nat, t: array2<nat>, x: nat, ghost n: nat) returns (crc: nat)
    requires t.Length0 >= 2 && TableHolds(P, t, n)
    requires x < Pow2(8 * t.Length0)
    ensures crc == MulXn(P, x, n)
  {
    hide Xor, MulXn;
    var w := t.Length0;
    var buf: nat := x;
    ByteStep(P, buf, n);
    DropByte(buf, w);
    crc := t[0, buf % 256];
    buf := buf / 256;
    for byte := 1 to w - 1
      invariant buf < Pow2(8 * (w - byte))
      invariant Xor(crc, MulXn(P, buf, n - 8 * byte)) == MulXn(P, x, n)
    {
      ByteStep(P, buf, n - 8 * byte);
      DropByte(buf, w - byte);
      XorAssoc(crc, MulXn(P, buf % 256, n - 8 * byte), MulXn(P, buf / 256, n - 8 * (byte + 1)));
      crc := Xor(crc, t[byte, buf % 256]);
      buf := buf / 256;
    }
    Pow2Of8();
    assert buf < 256;
    crc := Xor(crc, t[w - 1, buf]);
  }

  lemma DropByte(buf: nat, k: nat)
    requires k > 0 && buf < Pow2(8 * k)
    ensures buf / 256 < Pow2(8 * (k - 1))
  {
    Pow2Of8();
    Pow2Add(8, 8 * (k - 1));
  }

  // ---- the loops -----------------------------------------------------------------------

  /** What one word of data does to the register. */
  lemma FeedWord(P: nat, start: nat, data: seq<Byte>, pos: nat, w: nat)
    requires pos + w <= |data|
    ensures Raw(P, start, data[..pos + w])
            == MulXn(P, Xor(WordOf(data[pos..pos + w]), Raw(P, start, data[..pos])), 8 * w)
  {
    hide Xor, MulXn, Raw, WordOf;
    assert data[..pos + w] == data[..pos] + data[pos..pos + w];
    RawAppend(P, start, data[..pos], data[pos..pos + w]);
    RawWord(P, Raw(P, start, data[..pos]), data[pos..pos + w]);
    XorComm(Raw(P, start, data[..pos]), WordOf(data[pos..pos + w]));
  }

  lemma FeedByte(P: nat, start: nat, data: seq<Byte>, pos: nat)
    requires pos < |data|
    ensures Raw(P, start, data[..pos + 1]) == MulXn(P, Xor(Raw(P, start, data[..pos]), data[pos]), 8)
  {
    hide Xor, MulXn;
    assert data[..pos + 1] == data[..pos] + [data[pos]];
    RawAppend(P, start, data[..pos], [data[pos]]);
    var one := [data[pos]];
    assert one[1..] == [];
    assert Raw(P, MulXn(P, Xor(Raw(P, start, data[..pos]), one[0]), 8), one[1..])
           == MulXn(P, Xor(Raw(P, start, data[..pos]), one[0]), 8);
  }

  /** A register wider than a word: its low word is looked up, the rest is shifted down. */
  lemma WideStep(P: nat, crc: nat, buf: nat, w: nat, hi: nat, lo: nat)
    requires buf < Pow2(8 * w) && lo < Pow2(8 * w) && crc == hi * Pow2(8 * w) + lo
    ensures Xor(buf, lo) < Pow2(8 * w)
    ensures MulXn(P, Xor(buf, crc), 8 * w) == Xor(hi, MulXn(P, Xor(buf, lo), 8 * w))
  {
    hide Xor, MulXn, Pow2;
    var up := hi * Pow2(8 * w);
    XorDisjoint(lo, hi, 8 * w);
    XorBound(buf, lo, 8 * w);
    XorAssoc(buf, lo, up);
    MulXnLinear(P, Xor(buf, lo), up, 8 * w);
    MulXnShift(P, hi, 8 * w);
    XorComm(MulXn(P, Xor(buf, lo), 8 * w), hi);
  }

  /** High part and low part, for division by a power of two. */
  lemma Parts(c: nat, p: nat)
    requires p > 0
    ensures c == (c / p) * p + c % p && 0 <= c / p <= c && 0 <= c % p < p
  {
    var h := c / p;
    assert c == h * p + c % p;
    if h > 0 {
      MultipleBounds(p, h);
    }
  }

  lemma NoHighPart(crc: nat, p: nat)
    requires crc < p
    ensures crc / p == 0 && crc % p == crc
  {
  }

  class Engine {
    const f: Field
    const canon: nat
    const bits: nat                  // size of a CRC register
    const w: nat                     // bytes per word
    const stride: nat                // words processed side by side
    const minAlign: nat              // longer inputs are aligned first
    const powers: array<nat>
    const table: array2<nat>
    const interleaved: array2<nat>

    ghost predicate Valid()
      reads powers, table, interleaved
    {
      && f.Valid() && f.Has(canon) && 2 <= w && f.D <= bits <= WIDEST && stride > 0
      && PowersOfX(f, powers[..])
      && table.Length0 == w && TableHolds(f.P, table, 8 * w)
      && interleaved.Length0 == w && TableHolds(f.P, interleaved, 8 * w * stride)
    }

    /** The value fits into a word. */
    ghost predicate Fits(buf: nat) { buf < Pow2(8 * w) }

    /** The value fits into a register. */
    ghost predicate Reg(crc: nat) { crc < Pow2(bits) }

    /** A register is wider than a word. */
    predicate Wide() { bits > 8 * w }

    constructor (f: Field, canonical: bool, bits: nat, w: nat, stride: nat, minAlign: nat)
      requires f.Valid() && 2 <= w && f.D <= bits <= WIDEST && stride > 0 && 8 * w * stride + f.D < WORD
      ensures Valid() && this.f == f && this.bits == bits && this.w == w && this.stride == stride
      ensures this.minAlign == minAlign
      ensures canon == if canonical then Pow2(f.D) - 1 else 0
    {
      this.f, this.bits, this.w, this.stride, this.minAlign := f, bits, w, stride, minAlign;
      this.canon := if canonical then Pow2(f.D) - 1 else 0;
      var p := new nat[LOG_ENTRIES];
      PowerTable(f, p);
      ScaleStride(w, stride);
      var i := new nat[w, 256];
      FillTable(f, p, i, 8 * w * stride);
      var t := new nat[w, 256];
      FillTable(f, p, t, 8 * w);
      powers, table, interleaved := p, t, i;
    }

    /** One byte at a time: the reference. */
    method CrcByte(data: seq<Byte>, start: nat) returns (crc: nat)
      requires Valid()
      ensures crc == Value(f.P, canon, data, start)
    {
      hide Xor, MulXn, Raw, Mul, PowersOfX;
      crc := Xor(start, canon);
      ghost var init := crc;
      RawNone(f.P, init, data);
      for pos := 0 to |data|
        invariant crc == Raw(f.P, init, data[..pos])
      {
        FeedByte(f.P, init, data, pos);
        crc := StepByte(crc, data[pos]);
      }
      assert data[..|data|] == data;
      crc := Xor(crc, canon);
    }

    method StepByte(crc: nat, b: Byte) returns (r: nat)
      requires Valid()
      ensures r == MulXn(f.P, Xor(crc, b), 8)
    {
      hide Xor, MulXn, Raw, Mul, PowersOfX;
      ByteLookup(f.P, crc, b);
      r := Xor(crc / 256, table[w - 1, Xor(crc % 256, b)]);
    }

    /** The word step: add the low word of the register to the word, look all its bytes up,
        and add what is left of the register, if it is wider than a word. */
    method StepWord(crc: nat, buf: nat) returns (r: nat)
      requires Valid() && Reg(crc) && Fits(buf)
      ensures r == MulXn(f.P, Xor(buf, crc), 8 * w)
    {
      hide Xor, MulXn, Raw, Mul, PowersOfX, Pow2;
      var p := Pow2(8 * w);
      Parts(crc, p);
      var hi: nat, lo: nat := crc / p, crc % p;
      WideStep(f.P, crc, buf, w, hi, lo);
      r := LookUpWord(f.P, table, Xor(buf, lo), 8 * w);
      if Wide() {
        r := Xor(hi, r);
      } else {
        Pow2Monotone(bits, 8 * w);
        NoHighPart(crc, p);
        XorZero(r);
      }
    }

    /** Whatever is fed into a register leaves it a register. */
    lemma RegKept(init: nat, data: seq<Byte>)
      requires Valid() && Reg(init)
      ensures Reg(Raw(f.P, init, data))
    {
      hide Raw;
      Pow2Monotone(f.D, bits);
      RawBound(f.P, init, data, bits);
    }

    /** Reads a word of data. */
    method Load(data: seq<Byte>, pos: nat) returns (buf: nat)
      requires pos + w <= |data|
      ensures buf == WordOf(data[pos..pos + w]) && Fits(buf)
    {
      buf := WordOf(data[pos..pos + w]);
      WordBound(data[pos..pos + w]);
    }

    /** Byte steps until the address is a multiple of the word size, for long inputs. */
    method Align(data: seq<Byte>, addr: nat, init: nat) returns (pos: nat, crc: nat)
      requires Valid() && Reg(init)
      ensures pos <= |data| && crc == Raw(f.P, init, data[..pos]) && Reg(crc)
    {
      hide Xor, MulXn, Raw, Mul, PowersOfX;
      pos, crc := 0, init;
      RawNone(f.P, init, data);
      if w > 8 || |data| > minAlign {
        while (addr + pos) % w != 0 && pos < |data|
          invariant pos <= |data| && crc == Raw(f.P, init, data[..pos])
          decreases |data| - pos
        {
          FeedByte(f.P, init, data, pos);
          crc := StepByte(crc, data[pos]);
          pos := pos + 1;
        }
      }
      RegKept(init, data[..pos]);
    }

    /** Finishes the input word by word and then byte by byte. */
    method Tail(data: seq<Byte>, from: nat, crc0: nat, ghost init: nat) returns (crc: nat)
      requires Valid() && from <= |data| && Reg(init)
      requires crc0 == Raw(f.P, init, data[..from])
      ensures crc == Raw(f.P, init, data)
    {
      hide Xor, MulXn, Raw, Mul, PowersOfX;
      var pos := from;
      crc := crc0;
      while pos + w <= |data|
        invariant pos <= |data| && crc == Raw(f.P, init, data[..pos])
        decreases |data| - pos
      {
        pos, crc := OneWord(data, pos, crc, init);
      }
      while pos < |data|
        invariant pos <= |data| && crc == Raw(f.P, init, data[..pos])
        decreases |data| - pos
      {
        FeedByte(f.P, init, data, pos);
        crc := StepByte(crc, data[pos]);
        pos := pos + 1;
      }
      assert data[..|data|] == data;
    }

    /** Adding the start value and the canonical constant. */
    lemma StartFits(start: nat)
      requires Valid() && Reg(start)
      ensures Reg(Xor(start, canon))
    {
      Pow2Monotone(f.D, bits);
      XorBound(start, canon, bits);
    }

    /** Four words per round, then single words, then bytes. */
    method CrcWord(data: seq<Byte>, addr: nat, start: nat) returns (crc: nat)
      requires Valid() && Reg(start)
      ensures crc == Value(f.P, canon, data, start)
    {
      hide Xor, MulXn, Raw, Mul, PowersOfX;
      StartFits(start);
      ghost var init := Xor(start, canon);
      var pos;
      pos, crc := Align(data, addr, Xor(start, canon));
      while pos + 4 * w <= |data|
        invariant pos <= |data| && crc == Raw(f.P, init, data[..pos])
        decreases |data| - pos
      {
        pos, crc := OneWord(data, pos, crc, init);
        pos, crc := OneWord(data, pos, crc, init);
        pos, crc := OneWord(data, pos, crc, init);
        pos, crc := OneWord(data, pos, crc, init);
      }
      crc := Tail(data, pos, crc, init);
      crc := Xor(crc, canon);
    }

    method OneWord(data: seq<Byte>, from: nat, crc0: nat, ghost init: nat) returns (pos: nat, crc: nat)
      requires Valid() && from + w <= |data| && Reg(init)
      requires crc0 == Raw(f.P, init, data[..from])
      ensures pos == from + w && crc == Raw(f.P, init, data[..pos])
    {
      hide Xor, MulXn, Raw, Mul, PowersOfX;
      RegKept(init, data[..from]);
      FeedWord(f.P, init, data, from, w);
      var buf := Load(data, from);
      crc := StepWord(crc0, buf);
      pos := from + w;
    }

    /** The interleaved form: `stride` lanes, each one word wide, each fed with every
        `stride`-th word; the lanes are joined at the end. */
    method CrcMultiword(data: seq<Byte>, addr: nat, start: nat) returns (crc: nat)
      requires Valid() && Reg(start)
      ensures crc == Value(f.P, canon, data, start)
    {
      hide Xor, MulXn, Raw, Mul, PowersOfX, TableHolds;
      if stride < 2 || stride > 8 {
        crc := CrcWord(data, addr, start);
        return;
      }
      StartFits(start);
      ghost var init := Xor(start, canon);
      var pos;
      pos, crc := Align(data, addr, Xor(start, canon));
      if pos + 2 * (w * stride) <= |data| {
        pos, crc := Interleaved(data, pos, crc, init);
      }
      crc := Tail(data, pos, crc, init);
      crc := Xor(crc, canon);
    }

    /** The interleaved loop: words are loaded one block ahead, and what a lane has above its
        word is carried to the next lane. */
    method Interleaved(data: seq<Byte>, from: nat, crc0: nat, ghost init: nat) returns (pos: nat, crc: nat)
      requires Valid() && Reg(init) && from + 2 * (w * stride) <= |data| && crc0 == Raw(f.P, init, data[..from])
      ensures pos <= |data| && crc == Raw(f.P, init, data[..pos])
    {
      hide Xor, MulXn, Raw, Mul, PowersOfX, WordOf, LaneSum, Added, Words, TableHolds, Pow2, Carried;
      var block := w * stride;
      WordFits(bits);
      ScaleStride(w, stride);
      RegKept(init, data[..from]);
      pos := from;
      var crcs := [crc0] + seq(stride - 1, _ => 0);
      var bufs := LoadBlock(data, pos);
      var carry := 0;
      FirstBlock(f.P, init, crc0, crcs, bufs, data, pos, w, stride);
      CarryNothing(f.P, Added(crcs, bufs), w);
      while true
        invariant pos + 2 * block <= |data|
        invariant |crcs| == |bufs| == stride && AllReg(crcs) && AllFit(bufs) && Reg(carry)
        invariant bufs == Words(data, pos, w, stride)
        invariant Carried(f.P, carry, Added(crcs, bufs), w) == Raw(f.P, init, data[..pos + block])
        decreases |data| - pos
      {
        ghost var xs;
        var next, carry';
        next, carry', xs := MapLanes(crcs, bufs, carry);
        var bufs' := LoadBlock(data, pos + block);
        NextBlock(f.P, init, Carried(f.P, carry, Added(crcs, bufs), w), xs, carry', next, bufs', data, pos + block, w,
                  stride, block, 8 * w * stride);
        pos, crcs, bufs, carry := pos + block, next, bufs', carry';
        if pos + 2 * block > |data| {
          break;
        }
      }
      crc := Join(crcs, bufs, carry);
      pos := pos + block;
    }

    /** The striped form: `stride` adjacent stripes side by side, joined by multiplying with
        x^(8 * stripe length). */
    method CrcBlockword(data: seq<Byte>, addr: nat, start: nat) returns (crc: nat)
      requires Valid() && Reg(start)
      ensures crc == Value(f.P, canon, data, start)
    {
      hide Xor, MulXn, Raw, Mul, PowersOfX, TableHolds, Pow2;
      if stride < 2 || stride > 8 {
        crc := CrcWord(data, addr, start);
        return;
      }
      StartFits(start);
      ghost var init := Xor(start, canon);
      var pos;
      pos, crc := Align(data, addr, Xor(start, canon));
      var count := STRIPE_BYTES / w;
      var stripe := w * count;
      if pos + stripe * stride <= |data| && count > 0 {
        var power := XpowN(f, powers, 8 * stripe);
        while pos + stripe * stride <= |data|
          invariant pos <= |data| && crc == Raw(f.P, init, data[..pos])
          decreases |data| - pos
        {
          RegKept(init, data[..pos]);
          MultipleBounds(stride, stripe);
          crc := OneBlock(data, pos, crc, stripe, count, stripe * stride, power, init);
          pos := pos + stripe * stride;
        }
      }
      crc := Tail(data, pos, crc, init);
      crc := Xor(crc, canon);
    }

    /** One block of `stride` stripes of `count` words each. */
    method OneBlock(data: seq<Byte>, pos: nat, crc0: nat, stripe: nat, count: nat, block: nat, power: nat,
                    ghost init: nat)
      returns (crc: nat)
      requires Valid() && Reg(crc0) && count == STRIPE_BYTES / w > 0 && stripe == w * count
      requires power == f.Xpow(8 * stripe)
      requires block == stripe * stride && pos + block <= |data| && crc0 == Raw(f.P, init, data[..pos])
      ensures crc == Raw(f.P, init, data[..pos + block])
    {
      hide Xor, MulXn, Raw, Mul, PowersOfX, TableHolds, Pow2, Lane;
      XpowIn(f, 8 * stripe);
      var crcs := RunStripes(data, pos, crc0, stripe, count);
      crc := crcs[0];
      NextStripe(f.P, init, data, pos, stripe, stride, 0);
      StripeFits(stripe, stride, 0);
      LongStripe(w, count, stripe);
      Pow2Monotone(bits, 8 * stripe);
      RawShrinks(f, crc0, Lane(data, pos, stripe, stride, 0));
      for k := 1 to stride
        invariant f.Has(crc) && pos + stripe * k <= |data|
        invariant crc == Raw(f.P, init, data[..pos + stripe * k])
      {
        StripeFits(stripe, stride, k);
        ghost var s := Lane(data, pos, stripe, stride, k);
        NextStripe(f.P, init, data, pos, stripe, stride, k);
        TimesXpow(f, crc, 8 * stripe);
        JoinStripe(f.P, crc, s);
        RawBound(f.P, crc, s, f.D);
        var shifted := Multiply(f, crc, power);
        crc := Xor(crcs[k], shifted);
      }
    }

    /** All stripes advance together, one word each per round. */
    method RunStripes(data: seq<Byte>, pos: nat, crc0: nat, stripe: nat, count: nat) returns (crcs: seq<nat>)
      requires Valid() && Reg(crc0) && stripe == w * count && pos + stripe * stride <= |data|
      ensures |crcs| == stride
      ensures forall k :: 0 <= k < stride ==>
                crcs[k] == Raw(f.P, LaneStart(crc0, k), Lane(data, pos, stripe, stride, k))
    {
      hide Xor, MulXn, Raw, Mul, PowersOfX, TableHolds, Pow2, Lane;
      crcs := [crc0] + seq(stride - 1, _ => 0);
      WordFits(bits);
      forall k | 0 <= k < stride
        ensures crcs[k] == Raw(f.P, LaneStart(crc0, k), Lane(data, pos, stripe, stride, k)[..0])
      {
        RawNone(f.P, LaneStart(crc0, k), Lane(data, pos, stripe, stride, k));
      }
      var at := 0;
      for j := 0 to count
        invariant at == w * j <= stripe && |crcs| == stride && AllReg(crcs)
        invariant forall k :: 0 <= k < stride ==>
                    crcs[k] == Raw(f.P, LaneStart(crc0, k), Lane(data, pos, stripe, stride, k)[..at])
      {
        WordsLeft(w, count, j);
        crcs := StepStripes(data, pos, crc0, stripe, at, crcs);
        at := at + w;
      }
      assert forall k :: 0 <= k < stride ==>
               Lane(data, pos, stripe, stride, k)[..at] == Lane(data, pos, stripe, stride, k);
    }

    method StepStripes(data: seq<Byte>, pos: nat, ghost crc0: nat, stripe: nat, at: nat, crcs: seq<nat>)
      returns (next: seq<nat>)
      requires Valid() && Reg(crc0) && pos + stripe * stride <= |data| && at + w <= stripe
      requires |crcs| == stride && AllReg(crcs)
      requires forall k :: 0 <= k < stride ==>
                 crcs[k] == Raw(f.P, LaneStart(crc0, k), Lane(data, pos, stripe, stride, k)[..at])
      ensures |next| == stride && AllReg(next)
      ensures forall k :: 0 <= k < stride ==>
                next[k] == Raw(f.P, LaneStart(crc0, k), Lane(data, pos, stripe, stride, k)[..at + w])
    {
      hide Xor, MulXn, Raw, Mul, PowersOfX, TableHolds, Pow2, Lane;
      next := [];
      for k := 0 to stride
        invariant |next| == k && AllReg(next)
        invariant forall j :: 0 <= j < k ==>
                    next[j] == Raw(f.P, LaneStart(crc0, j), Lane(data, pos, stripe, stride, j)[..at + w])
      {
        StripeFits(stripe, stride, k);
        var buf := Load(data, pos + stripe * k + at);
        LaneWord(data, pos, stripe, stride, k, at, w);
        FeedWord(f.P, LaneStart(crc0, k), Lane(data, pos, stripe, stride, k), at, w);
        var c := StepWord(crcs[k], buf);
        WordFits(bits);
        RegKept(LaneStart(crc0, k), Lane(data, pos, stripe, stride, k)[..at + w]);
        next := next + [c];
      }
    }

    ghost predicate AllFit(xs: seq<nat>) { forall k :: 0 <= k < |xs| ==> Fits(xs[k]) }

    ghost predicate AllReg(xs: seq<nat>) { forall k :: 0 <= k < |xs| ==> Reg(xs[k]) }

    method LoadBlock(data: seq<Byte>, pos: nat) returns (bufs: seq<nat>)
      requires pos + w * stride <= |data|
      ensures bufs == Words(data, pos, w, stride) && AllFit(bufs)
    {
      bufs := LoadWords(data, pos, w, stride);
      WordsFit(data, pos, w, stride);
    }

    /** Every lane: take the carry, add the low word, multiply by x^(8 * w * stride), and pass
        on what is above the low word. */
    method MapLanes(crcs: seq<nat>, bufs: seq<nat>, carry: nat)
      returns (next: seq<nat>, carry': nat, ghost xs: seq<nat>)
      requires Valid() && |crcs| == |bufs| == stride && AllReg(crcs) && AllFit(bufs) && Reg(carry)
      ensures |xs| == stride && next == Shifted(f.P, xs, 8 * w * stride) && AllReg(next) && Reg(carry')
      ensures Xor(LaneSum(f.P, xs, w), carry') == Carried(f.P, carry, Added(crcs, bufs), w)
    {
      hide Xor, MulXn, Mul, PowersOfX, LaneSum, Pow2, TableHolds;
      var p := Pow2(8 * w);
      next, xs, carry' := [], [], carry;
      ghost var ys := Added(crcs, bufs);
      assert ys[0..] == ys;
      NoLanes(f.P, Carried(f.P, carry, ys, w), w, stride);
      for k := 0 to stride
        invariant |xs| == k && next == Shifted(f.P, xs, 8 * w * stride) && AllReg(next) && Reg(carry')
        invariant Xor(Weighted(f.P, xs, w, stride), Carried(f.P, carry', ys[k..], w)) == Carried(f.P, carry, ys, w)
      {
        var c := Xor(crcs[k], carry');
        XorBound(crcs[k], carry', bits);
        Parts(c, p);
        var h: nat, lo: nat := c / p, c % p;
        WideStep(f.P, c, bufs[k], w, h, lo);
        var x := Xor(bufs[k], lo);
        var y := LookUpWord(f.P, interleaved, x, 8 * w * stride);
        WordReg(x, y);
        CarryStep(f.P, carry', crcs[k], bufs[k], x, h, ys[k..], w);
        assert ys[k..][1..] == ys[k + 1..];
        WeightedSnoc(f.P, xs, x, w, stride);
        XorAssoc(Weighted(f.P, xs, w, stride), MulXn(f.P, x, 8 * w * (stride - k)), Carried(f.P, h, ys[k + 1..], w));
        if Wide() {
          carry' := h;
        } else {
          Pow2Monotone(bits, 8 * w);
          NoHighPart(c, p);
          carry' := 0;
        }
        next := next + [y];
        xs := xs + [x];
      }
      assert ys[stride..] == [];
      CarriedNone(f.P, carry', w);
      WeightedAll(f.P, xs, w, stride);
    }

    /** A word shifted through the tables is a register again. */
    lemma WordReg(x: nat, y: nat)
      requires Valid() && Fits(x) && y == MulXn(f.P, x, 8 * w * stride)
      ensures Reg(y)
    {
      hide MulXn, TableHolds, PowersOfX;
      ScaleStride(w, stride);
      Pow2Monotone(f.D, bits);
      if f.D <= 8 * w {
        MulXnShrinks(f.P, x, f.D, 8 * w, 8 * w * stride);
      } else {
        Pow2Monotone(8 * w, f.D);
        MulXnBound(f.P, x, f.D, 8 * w * stride);
      }
    }

    /** Joins the lanes with the last block of words. */
    method Join(crcs: seq<nat>, bufs: seq<nat>, carry: nat) returns (crc: nat)
      requires Valid() && |crcs| == |bufs| == stride && AllReg(crcs) && AllFit(bufs) && Reg(carry)
      ensures crc == Carried(f.P, carry, Added(crcs, bufs), w)
    {
      hide Xor, MulXn, Mul, PowersOfX, LaneSum;
      crc := carry;
      ghost var xs := Added(crcs, bufs);
      assert xs[0..] == xs;
      for k := 0 to stride
        invariant Reg(crc)
        invariant Carried(f.P, crc, xs[k..], w) == Carried(f.P, carry, xs, w)
      {
        JoinStep(f.P, crc, crcs[k], bufs[k], xs[k..], w);
        XorBound(crc, crcs[k], bits);
        assert xs[k..][1..] == xs[k + 1..];
        var sum := Xor(crc, crcs[k]);
        crc := StepWord(sum, bufs[k]);
        StepReg(sum, bufs[k], crc);
      }
      assert xs[stride..] == [];
      CarriedNone(f.P, crc, w);
    }

    lemma StepReg(crc: nat, buf: nat, r: nat)
      requires Valid() && Reg(crc) && Fits(buf) && r == MulXn(f.P, Xor(buf, crc), 8 * w)
      ensures Reg(r)
    {
      hide MulXn, Xor, TableHolds, PowersOfX;
      Pow2Monotone(f.D, bits);
      if Wide() {
        Pow2Monotone(8 * w, bits);
        XorBound(buf, crc, bits);
        MulXnBound(f.P, Xor(buf, crc), bits, 8 * w);
      } else {
        Pow2Monotone(bits, 8 * w);
        XorBound(buf, crc, 8 * w);
        MulXnShrinks(f.P, Xor(buf, crc), f.D, 8 * w, 8 * w);
      }
    }
  }

  /** The widest register of the library. */
  const WIDEST := 128

  lemma LongStripe(w: nat, count: nat, stripe: nat)
    requires 0 < w && count == STRIPE_BYTES / w > 0 && stripe == w * count
    ensures 8 * stripe >= WIDEST
  {
    assert STRIPE_BYTES == w * count + STRIPE_BYTES % w;
    MultipleBounds(count, w);
  }

  /** The stripe length before rounding down to whole words. */
  const STRIPE_BYTES := 15 * 1024 + 16

  lemma ScaleSum(a: nat, b: nat, c: nat)
    ensures a * (b + c) == a * b + a * c && a * c >= 0
  {
  }

  lemma StripeFits(stripe: nat, stride: nat, k: nat)
    requires k < stride
    ensures stripe * k + stripe == stripe * (k + 1) <= stripe * stride
    ensures stripe * 0 == 0 && stripe * 1 == stripe
  {
    ScaleSum(stripe, k, 1);
    ScaleSum(stripe, k + 1, stride - k - 1);
  }

  /** Stripe `k` of a block at `pos`. */
  ghost function Lane(data: seq<Byte>, pos: nat, stripe: nat, stride: nat, k: nat): (s: seq<Byte>)
    requires k < stride && pos + stripe * stride <= |data|
    ensures |s| == stripe
  {
    StripeFits(stripe, stride, k);
    data[pos + stripe * k..pos + stripe * k + stripe]
  }

  ghost function LaneStart(crc0: nat, k: nat): (r: nat) { if k == 0 then crc0 else 0 }

  lemma LaneWord(data: seq<Byte>, pos: nat, stripe: nat, stride: nat, k: nat, at: nat, w: nat)
    requires k < stride && pos + stripe * stride <= |data| && at + w <= stripe
    ensures pos + stripe * k + at + w <= |data|
    ensures Lane(data, pos, stripe, stride, k)[at..at + w] == data[pos + stripe * k + at..pos + stripe * k + at + w]
  {
    hide Lane;
    var from := pos + stripe * k;
    LaneIs(data, pos, stripe, stride, k, from);
    SliceOfSlice(data, from, stripe, at, w);
  }

  lemma LaneIs(data: seq<Byte>, pos: nat, stripe: nat, stride: nat, k: nat, from: nat)
    requires k < stride && pos + stripe * stride <= |data| && from == pos + stripe * k
    ensures from + stripe <= |data| && Lane(data, pos, stripe, stride, k) == data[from..from + stripe]
  {
    StripeFits(stripe, stride, k);
  }

  lemma SliceOfSlice(data: seq<Byte>, from: nat, len: nat, at: nat, n: nat)
    requires from + len <= |data| && at + n <= len
    ensures data[from..from + len][at..at + n] == data[from + at..from + at + n]
  {
    var s := data[from..from + len];
    var t, u := s[at..at + n], data[from + at..from + at + n];
    assert forall i :: 0 <= i < len ==> s[i] == data[from + i];
    assert forall k :: 0 <= k < n ==> t[k] == s[at + k] == u[k];
  }

  lemma NextStripe(P: nat, init: nat, data: seq<Byte>, pos: nat, stripe: nat, stride: nat, k: nat)
    requires k < stride && pos + stripe * stride <= |data|
    ensures pos + stripe * k <= pos + stripe * (k + 1) <= |data|
    ensures Raw(P, init, data[..pos + stripe * (k + 1)])
            == Raw(P, Raw(P, init, data[..pos + stripe * k]), Lane(data, pos, stripe, stride, k))
  {
    hide Raw;
    StripeFits(stripe, stride, k);
    var at := pos + stripe * k;
    assert data[..at + stripe] == data[..at] + data[at..at + stripe];
    RawAppend(P, init, data[..at], data[at..at + stripe]);
  }

  lemma WordFits(w: nat)
    ensures Pow2(8 * w) > 0
  {
  }

  /** The register before a stripe and the CRC of the stripe alone give the register after it. */
  lemma JoinStripe(P: nat, crc: nat, s: seq<Byte>)
    ensures Xor(Raw(P, 0, s), MulXn(P, crc, 8 * |s|)) == Raw(P, crc, s)
  {
    hide Xor, MulXn, Raw;
    RawLinear(P, crc, 0, s);
    XorZero(crc);
    XorComm(MulXn(P, crc, 8 * |s|), Raw(P, 0, s));
  }

  // ---- lanes ---------------------------------------------------------------------------

  /** The sum of the lanes, each multiplied up to the end of the block. */
  ghost function LaneSum(P: nat, xs: seq<nat>, w: nat): (r: nat)
  {
    if |xs| == 0 then 0 else Xor(MulXn(P, xs[0], 8 * w * |xs|), LaneSum(P, xs[1..], w))
  }

  ghost function Added(xs: seq<nat>, ys: seq<nat>): (r: seq<nat>)
    requires |xs| == |ys|
    ensures |r| == |xs| && forall k :: 0 <= k < |xs| ==> r[k] == Xor(xs[k], ys[k])
  {
    seq(|xs|, k requires 0 <= k < |xs| => Xor(xs[k], ys[k]))
  }

  ghost function Shifted(P: nat, xs: seq<nat>, n: nat): (r: seq<nat>)
    ensures |r| == |xs| && forall k :: 0 <= k < |xs| ==> r[k] == MulXn(P, xs[k], n)
  {
    seq(|xs|, k requires 0 <= k < |xs| => MulXn(P, xs[k], n))
  }

  /** `count` consecutive words of the data. */
  ghost function Words(data: seq<Byte>, pos: nat, w: nat, count: nat): (r: seq<nat>)
    requires pos + w * count <= |data|
    ensures |r| == count
  {
    if count == 0 then [] else
    WordsLeft(w, count, count - 1);
    Words(data, pos, w, count - 1) + [WordOf(data[pos + w * (count - 1)..pos + w * (count - 1) + w])]
  }

  lemma WordsNone(data: seq<Byte>, pos: nat, w: nat)
    requires pos <= |data|
    ensures w * 0 == 0 && Words(data, pos, w, 0) == []
  {
  }

  lemma WordsSnoc(data: seq<Byte>, pos: nat, w: nat, k: nat, at: nat)
    requires at == pos + w * k && at + w == pos + w * (k + 1) <= |data|
    ensures Words(data, pos, w, k + 1) == Words(data, pos, w, k) + [WordOf(data[at..at + w])]
  {
  }

  method LoadWords(data: seq<Byte>, pos: nat, w: nat, count: nat) returns (bufs: seq<nat>)
    requires pos + w * count <= |data|
    ensures bufs == Words(data, pos, w, count)
  {
    hide WordOf, Words;
    bufs := [];
    var at := pos;
    WordsNone(data, pos, w);
    for k := 0 to count
      invariant at == pos + w * k <= |data|
      invariant bufs == Words(data, pos, w, k)
    {
      WordsLeft(w, count, k);
      WordsSnoc(data, pos, w, k, at);
      bufs := bufs + [WordOf(data[at..at + w])];
      at := at + w;
    }
  }

  lemma {:induction false} WordsFit(data: seq<Byte>, pos: nat, w: nat, count: nat)
    requires pos + w * count <= |data|
    ensures forall k :: 0 <= k < count ==> Words(data, pos, w, count)[k] < Pow2(8 * w)
  {
    hide WordOf, Words;
    if count > 0 {
      var at := pos + w * (count - 1);
      WordsLeft(w, count, count - 1);
      WordsSnoc(data, pos, w, count - 1, at);
      WordsFit(data, pos, w, count - 1);
      WordBound(data[at..at + w]);
    }
  }

  lemma WordsLeft(w: nat, count: nat, k: nat)
    requires k < count
    ensures w * k + w == w * (k + 1) <= w * count
  {
    assert w * count == w * (k + 1) + w * (count - k - 1);
  }

  lemma LaneSumNone(P: nat, w: nat)
    ensures LaneSum(P, [], w) == 0
  {
  }

  lemma LaneSumStep(P: nat, xs: seq<nat>, w: nat)
    requires |xs| > 0
    ensures LaneSum(P, xs, w) == Xor(MulXn(P, xs[0], 8 * w * |xs|), LaneSum(P, xs[1..], w))
  {
  }

  lemma {:induction false} LaneSumAdded(P: nat, xs: seq<nat>, ys: seq<nat>, w: nat)
    requires |xs| == |ys|
    ensures LaneSum(P, Added(xs, ys), w) == Xor(LaneSum(P, xs, w), LaneSum(P, ys, w))
    decreases |xs|
  {
    hide Xor, MulXn, LaneSum;
    if |xs| == 0 {
      assert Added(xs, ys) == [] && xs == [] && ys == [];
      LaneSumNone(P, w);
      XorZero(0);
    } else {
      var zs, n := Added(xs, ys), 8 * w * |xs|;
      LaneSumStep(P, xs, w);
      LaneSumStep(P, ys, w);
      LaneSumStep(P, zs, w);
      assert zs[1..] == Added(xs[1..], ys[1..]);
      LaneSumAdded(P, xs[1..], ys[1..], w);
      MulXnLinear(P, xs[0], ys[0], n);
      XorSwap(MulXn(P, xs[0], n), MulXn(P, ys[0], n), LaneSum(P, xs[1..], w), LaneSum(P, ys[1..], w));
    }
  }

  lemma {:induction false} LaneSumShifted(P: nat, xs: seq<nat>, w: nat, n: nat)
    ensures LaneSum(P, Shifted(P, xs, n), w) == MulXn(P, LaneSum(P, xs, w), n)
    decreases |xs|
  {
    hide Xor, MulXn, LaneSum;
    var zs := Shifted(P, xs, n);
    if |xs| == 0 {
      assert zs == [] && xs == [];
      LaneSumNone(P, w);
      MulXnZero(P, n);
    } else {
      var m := 8 * w * |xs|;
      LaneSumStep(P, xs, w);
      LaneSumStep(P, zs, w);
      assert zs[1..] == Shifted(P, xs[1..], n);
      LaneSumShifted(P, xs[1..], w, n);
      MulXnAdd(P, xs[0], n, m);
      MulXnAdd(P, xs[0], m, n);
      MulXnLinear(P, MulXn(P, xs[0], m), LaneSum(P, xs[1..], w), n);
    }
  }

  /** A block of words fed into the register is the sum of its lanes. */
  lemma {:induction false} RawBlock(P: nat, crc: nat, data: seq<Byte>, pos: nat, w: nat, count: nat)
    requires pos + w * count <= |data|
    ensures Raw(P, crc, data[pos..pos + w * count])
            == Xor(MulXn(P, crc, 8 * w * count), LaneSum(P, Words(data, pos, w, count), w))
    decreases count
  {
    hide Xor, MulXn, LaneSum, Raw, WordOf, Words;
    if count == 0 {
      assert w * count == 0 && 8 * w * count == 0;
      assert data[pos..pos] == data[pos..pos][..0];
      RawNone(P, crc, data[pos..pos]);
      WordsNone(data, pos, w);
      LaneSumNone(P, w);
      MulXnNone(P, crc);
      XorZero(crc);
    } else {
      WordsLeft(w, count, count - 1);
      RawBlock(P, crc, data, pos, w, count - 1);
      var at, n := pos + w * (count - 1), 8 * w * (count - 1);
      assert 8 * w * count == n + 8 * w && pos + w * count == at + w;
      WordsLast(data, pos, w, count, at);
      BlockGrows(P, crc, data, pos, w, at, n, Words(data, pos, w, count - 1));
    }
  }

  lemma WordsLast(data: seq<Byte>, pos: nat, w: nat, count: nat, at: nat)
    requires count > 0 && pos + w * count <= |data| && at == pos + w * (count - 1)
    ensures at + w <= |data| && pos + w * (count - 1) <= |data|
    ensures Words(data, pos, w, count) == Words(data, pos, w, count - 1) + [WordOf(data[at..at + w])]
  {
    hide WordOf;
    WordsLeft(w, count, count - 1);
  }

  /** One more word. */
  lemma BlockGrows(P: nat, crc: nat, data: seq<Byte>, pos: nat, w: nat, at: nat, n: nat, ws: seq<nat>)
    requires pos <= at && at + w <= |data|
    requires Raw(P, crc, data[pos..at]) == Xor(MulXn(P, crc, n), LaneSum(P, ws, w))
    ensures Raw(P, crc, data[pos..at + w])
            == Xor(MulXn(P, crc, n + 8 * w), LaneSum(P, ws + [WordOf(data[at..at + w])], w))
  {
    hide Xor, MulXn, LaneSum, Raw, WordOf;
    var last := WordOf(data[at..at + w]);
    assert data[pos..at + w] == data[pos..at] + data[at..at + w];
    RawAppend(P, crc, data[pos..at], data[at..at + w]);
    RawWord(P, Raw(P, crc, data[pos..at]), data[at..at + w]);
    MulXnLinear(P, Raw(P, crc, data[pos..at]), last, 8 * w);
    MulXnLinear(P, MulXn(P, crc, n), LaneSum(P, ws, w), 8 * w);
    MulXnAdd(P, crc, n, 8 * w);
    LaneSumSnoc(P, ws, last, w);
    XorAssoc(MulXn(P, crc, n + 8 * w), MulXn(P, LaneSum(P, ws, w), 8 * w), MulXn(P, last, 8 * w));
  }

  lemma {:induction false} LaneSumSnoc(P: nat, xs: seq<nat>, x: nat, w: nat)
    ensures LaneSum(P, xs + [x], w) == Xor(MulXn(P, LaneSum(P, xs, w), 8 * w), MulXn(P, x, 8 * w))
    decreases |xs|
  {
    hide Xor, MulXn, LaneSum;
    var zs := xs + [x];
    LaneSumStep(P, zs, w);
    LaneSumNone(P, w);
    if |xs| == 0 {
      assert zs == [x] && zs[1..] == [] && xs == [];
      assert 8 * w * |zs| == 8 * w;
      XorZero(MulXn(P, x, 8 * w));
      MulXnZero(P, 8 * w);
    } else {
      assert zs[1..] == xs[1..] + [x];
      LaneSumStep(P, xs, w);
      LaneSumSnoc(P, xs[1..], x, w);
      var n := 8 * w * |xs|;
      assert 8 * w * |zs| == n + 8 * w;
      MulXnAdd(P, xs[0], n, 8 * w);
      MulXnLinear(P, MulXn(P, xs[0], n), LaneSum(P, xs[1..], w), 8 * w);
      XorAssoc(MulXn(P, xs[0], n + 8 * w), MulXn(P, LaneSum(P, xs[1..], w), 8 * w), MulXn(P, x, 8 * w));
    }
  }

  /** The sum of the lanes and a carry that enters the first of them. */
  ghost function Carried(P: nat, carry: nat, xs: seq<nat>, w: nat): (r: nat)
  {
    Xor(MulXn(P, carry, 8 * w * |xs|), LaneSum(P, xs, w))
  }

  lemma CarryNothing(P: nat, xs: seq<nat>, w: nat)
    ensures Carried(P, 0, xs, w) == LaneSum(P, xs, w)
  {
    MulXnZero(P, 8 * w * |xs|);
    XorZero(LaneSum(P, xs, w));
  }

  lemma CarriedNone(P: nat, carry: nat, w: nat)
    ensures Carried(P, carry, [], w) == carry
  {
    hide Xor, MulXn, LaneSum;
    LaneSumNone(P, w);
    assert 8 * w * 0 == 0;
    MulXnNone(P, carry);
    XorZero(carry);
  }

  /** Joining one lane. */
  lemma JoinStep(P: nat, crc: nat, c: nat, b: nat, xs: seq<nat>, w: nat)
    requires |xs| > 0 && xs[0] == Xor(c, b)
    ensures Carried(P, crc, xs, w) == Carried(P, MulXn(P, Xor(b, Xor(crc, c)), 8 * w), xs[1..], w)
  {
    hide Xor, MulXn, LaneSum;
    var n := 8 * w * |xs|;
    LaneSumStep(P, xs, w);
    XorAssoc(MulXn(P, crc, n), MulXn(P, xs[0], n), LaneSum(P, xs[1..], w));
    MulXnLinear(P, crc, xs[0], n);
    XorAssoc(crc, c, b);
    XorComm(b, Xor(crc, c));
    assert n == 8 * w + 8 * w * (|xs| - 1);
    MulXnAdd(P, Xor(crc, xs[0]), 8 * w, 8 * w * (|xs| - 1));
  }

  /** A lane keeps its low word `x` and passes `h` on. */
  lemma CarryStep(P: nat, carry: nat, c: nat, b: nat, x: nat, h: nat, ys: seq<nat>, w: nat)
    requires |ys| > 0 && ys[0] == Xor(c, b)
    requires MulXn(P, Xor(b, Xor(c, carry)), 8 * w) == Xor(h, MulXn(P, x, 8 * w))
    ensures Carried(P, carry, ys, w) == Xor(MulXn(P, x, 8 * w * |ys|), Carried(P, h, ys[1..], w))
  {
    hide Xor, MulXn, LaneSum;
    var m := 8 * w * (|ys| - 1);
    assert 8 * w * |ys| == 8 * w + m;
    XorComm(c, carry);
    JoinStep(P, carry, c, b, ys, w);
    MulXnLinear(P, h, MulXn(P, x, 8 * w), m);
    MulXnAdd(P, x, 8 * w, m);
    XorComm(MulXn(P, h, m), MulXn(P, x, 8 * w + m));
    XorAssoc(MulXn(P, x, 8 * w + m), MulXn(P, h, m), LaneSum(P, ys[1..], w));
  }

  /** The first lanes of a block of `stride`, each multiplied up to the end of the block. */
  ghost function Weighted(P: nat, xs: seq<nat>, w: nat, stride: nat): (r: nat)
    requires |xs| <= stride
  {
    if |xs| == 0 then 0
    else var k := |xs| - 1; Xor(Weighted(P, xs[..k], w, stride), MulXn(P, xs[k], 8 * w * (stride - k)))
  }

  lemma WeightedSnoc(P: nat, xs: seq<nat>, x: nat, w: nat, stride: nat)
    requires |xs| < stride
    ensures Weighted(P, xs + [x], w, stride) == Xor(Weighted(P, xs, w, stride), MulXn(P, x, 8 * w * (stride - |xs|)))
  {
    hide Xor, MulXn;
    assert (xs + [x])[..|xs|] == xs;
  }

  lemma NoLanes(P: nat, sum: nat, w: nat, stride: nat)
    ensures Xor(Weighted(P, [], w, stride), sum) == sum
  {
    XorZero(sum);
  }

  lemma {:induction false} WeightedFrom(P: nat, xs: seq<nat>, ys: seq<nat>, w: nat)
    ensures Weighted(P, xs + ys, w, |xs| + |ys|) == Xor(Weighted(P, xs, w, |xs| + |ys|), LaneSum(P, ys, w))
    decreases |ys|
  {
    hide Xor, MulXn, LaneSum, Weighted;
    var n := |xs| + |ys|;
    if |ys| == 0 {
      assert xs + ys == xs && ys == [];
      LaneSumNone(P, w);
      XorZero(Weighted(P, xs, w, n));
    } else {
      var y := ys[0];
      assert xs + ys == (xs + [y]) + ys[1..];
      WeightedFrom(P, xs + [y], ys[1..], w);
      WeightedSnoc(P, xs, y, w, n);
      LaneSumStep(P, ys, w);
      XorAssoc(Weighted(P, xs, w, n), MulXn(P, y, 8 * w * |ys|), LaneSum(P, ys[1..], w));
    }
  }

  lemma WeightedAll(P: nat, xs: seq<nat>, w: nat, stride: nat)
    requires |xs| == stride
    ensures Weighted(P, xs, w, stride) == LaneSum(P, xs, w)
  {
    hide Xor, MulXn, LaneSum;
    WeightedFrom(P, [], xs, w);
    assert [] + xs == xs;
    NoLanes(P, LaneSum(P, xs, w), w, stride);
  }

  /** Before the first round: lane 0 holds the register, the others nothing. */
  lemma FirstBlock(P: nat, init: nat, crc: nat, crcs: seq<nat>, bufs: seq<nat>, data: seq<Byte>, pos: nat, w: nat,
                   stride: nat)
    requires stride > 0 && pos + w * stride <= |data|
    requires crc == Raw(P, init, data[..pos])
    requires |crcs| == stride && crcs[0] == crc && forall k :: 1 <= k < stride ==> crcs[k] == 0
    requires bufs == Words(data, pos, w, stride)
    ensures LaneSum(P, Added(crcs, bufs), w) == Raw(P, init, data[..pos + w * stride])
  {
    hide Xor, MulXn, LaneSum, Raw, WordOf, Words;
    LaneSumAdded(P, crcs, bufs, w);
    LaneSumStep(P, crcs, w);
    LaneSumZeroes(P, crcs[1..], w);
    XorZero(MulXn(P, crc, 8 * w * stride));
    RawBlock(P, crc, data, pos, w, stride);
    assert data[..pos + w * stride] == data[..pos] + data[pos..pos + w * stride];
    RawAppend(P, init, data[..pos], data[pos..pos + w * stride]);
  }

  lemma {:induction false} LaneSumZeroes(P: nat, xs: seq<nat>, w: nat)
    requires forall k :: 0 <= k < |xs| ==> xs[k] == 0
    ensures LaneSum(P, xs, w) == 0
  {
    hide MulXn;
    if |xs| > 0 {
      LaneSumZeroes(P, xs[1..], w);
      MulXnZero(P, 8 * w * |xs|);
      XorZero(0);
    }
  }

  /** The lanes and the carry sum up to the register after `msg`; `next` are the lanes moved on. */
  ghost predicate LanesMoved(P: nat, init: nat, sum: nat, xs: seq<nat>, carry: nat, next: seq<nat>, msg: seq<Byte>,
                             w: nat, n: nat)
  {
    next == Shifted(P, xs, n) && sum == Xor(LaneSum(P, xs, w), carry) && sum == Raw(P, init, msg)
  }

  /** One round of the interleaved loop. */
  lemma NextBlock(P: nat, init: nat, sum: nat, xs: seq<nat>, carry: nat, next: seq<nat>, bufs: seq<nat>,
                  data: seq<Byte>, at: nat, w: nat, stride: nat, block: nat, n: nat)
    requires block == w * stride && n == 8 * w * stride && at + block <= |data|
    requires bufs == Words(data, at, w, stride) && |bufs| == |next| == |xs| == stride
    requires LanesMoved(P, init, sum, xs, carry, next, data[..at], w, n)
    ensures Carried(P, carry, Added(next, bufs), w) == Raw(P, init, data[..at + block])
  {
    hide Xor, MulXn, LaneSum, Raw, WordOf, Words, Added, Shifted;
    LaneSumAdded(P, next, bufs, w);
    LaneSumShifted(P, xs, w, n);
    MulXnLinear(P, LaneSum(P, xs, w), carry, n);
    RawBlock(P, sum, data, at, w, stride);
    assert data[..at + block] == data[..at] + data[at..at + block];
    RawAppend(P, init, data[..at], data[at..at + block]);
    var lanes, up, words := MulXn(P, LaneSum(P, xs, w), n), MulXn(P, carry, n), LaneSum(P, bufs, w);
    XorComm(lanes, up);
    XorAssoc(up, lanes, words);
  }

  lemma ScaleStride(w: nat, stride: nat)
    requires w > 0 && stride > 0
    ensures 8 * w <= 8 * w * stride
  {
    MultipleBounds(stride, 8 * w);
  }

  lemma RawNone(P: nat, init: nat, data: seq<Byte>)
    ensures Raw(P, init, data[..0]) == init
  {
  }
}
