/** The scatter/gather lists of one timeslice: built over the source's rings, split where the
    remote ring wraps. */
module ScatterGather {
  import opened RingMath
  import opened Wire
  import ICC = InputChannelConnection
  import ICS = InputChannelSender
  import MRB = ManagedRingBuffer

  datatype Region = DescRegion | DataRegion

  /** A stretch of source memory. */
  datatype Sge = Sge(region: Region, addr: nat, length: nat)

  /** The memory behind the source's two rings. */
  datatype Memory = Memory(desc: seq<Byte>, data: seq<Byte>) {
    function Of(r: Region): seq<Byte> { if r.DescRegion? then desc else data }
  }

  ghost predicate InMemory(m: Memory, e: Sge) { e.addr + e.length <= |m.Of(e.region)| }

  ghost predicate AllIn(m: Memory, list: seq<Sge>)
  {
    forall k :: 0 <= k < |list| ==> InMemory(m, list[k]) && list[k].length > 0
  }

  ghost function Piece(m: Memory, e: Sge): (bytes: seq<Byte>)
    ensures InMemory(m, e) ==> |bytes| == e.length
  {
    if InMemory(m, e) then m.Of(e.region)[e.addr..e.addr + e.length] else []
  }

  /** What the adapter reads for a list. */
  ghost function Gathered(m: Memory, list: seq<Sge>): (bytes: seq<Byte>)
  {
    if |list| == 0 then [] else Gathered(m, list[..|list| - 1]) + Piece(m, list[|list| - 1])
  }

  lemma GatheredSnoc(m: Memory, list: seq<Sge>, e: Sge)
    ensures Gathered(m, list + [e]) == Gathered(m, list) + Piece(m, e)
  {
    assert (list + [e])[..|list|] == list;
  }

  lemma GatheredOne(m: Memory, e: Sge)
    ensures Gathered(m, [e]) == Piece(m, e)
  {
    assert [e][..0] == [];
    assert Gathered(m, [e][..0]) == [];
  }

  /** `len` elements of a ring from position `pos` on. */
  ghost function RingSlice(ring: seq<Byte>, pos: nat, len: nat): (s: seq<Byte>)
    requires |ring| > 0
    ensures |s| == len
  {
    seq<Byte>(len, k requires 0 <= k < len => At(ring, pos + k))
  }

  ghost function At(ring: seq<Byte>, pos: nat): (b: Byte)
    requires |ring| > 0
  {
    ring[pos % |ring|]
  }

  lemma AtSlot(ring: seq<Byte>, pos: nat, k: nat)
    requires |ring| > 0 && k <= |ring|
    ensures pos % |ring| + k < |ring| ==> At(ring, pos + k) == ring[pos % |ring| + k]
    ensures |ring| <= pos % |ring| + k < 2 * |ring| ==> At(ring, pos + k) == ring[pos % |ring| + k - |ring|]
  {
    var size, at := |ring|, pos % |ring|;
    if at + k < size {
      RemainderUnique(pos + k, size, pos / size, at + k);
    } else if at + k < 2 * size {
      RemainderUnique(pos + k, size, pos / size + 1, at + k - size);
    }
  }

  lemma SliceOneChunk(ring: seq<Byte>, pos: nat, len: nat, at: nat)
    requires |ring| > 0 && at == pos % |ring| && at + len <= |ring|
    ensures RingSlice(ring, pos, len) == ring[at..at + len]
  {
    hide At;
    forall k | 0 <= k < len
      ensures RingSlice(ring, pos, len)[k] == ring[at..at + len][k]
    {
      AtSlot(ring, pos, k);
    }
  }

  lemma SliceTwoChunks(ring: seq<Byte>, pos: nat, len: nat, at: nat)
    requires |ring| > 0 && at == pos % |ring| && len <= |ring| < at + len
    ensures RingSlice(ring, pos, len) == ring[at..] + ring[..len - (|ring| - at)]
  {
    hide At;
    var two := ring[at..] + ring[..len - (|ring| - at)];
    forall k | 0 <= k < len
      ensures RingSlice(ring, pos, len)[k] == two[k]
    {
      AtSlot(ring, pos, k);
    }
  }

  /** The chunks of one ring stretch: one, or two if it wraps.  Positions count entries of
      `unit` bytes. */
  method Chunks(region: Region, size: nat, unit: nat, offset: nat, length: nat, ghost m: Memory)
    returns (list: seq<Sge>)
    requires size > 0 && unit > 0 && 0 < length <= size
    requires |m.Of(region)| == size * unit > 0
    ensures AllIn(m, list) && 0 < |list| <= 2
    ensures Gathered(m, list) == RingSlice(m.Of(region), offset * unit, length * unit)
  {
    hide Gathered, RingSlice, At, Piece, AllIn;
    var at := offset % size;
    LastSlot(offset, length, size);
    ScaleMonotone(0, at, unit);
    ScaleMonotone(0, length, unit);
    if at <= (offset + length - 1) % size {
      list := [Sge(region, at * unit, length * unit)];
      OneChunk(region, size, unit, offset, length, m);
    } else {
      ScaleMonotone(0, size - at, unit);
      ScaleMonotone(0, length - (size - at), unit);
      list := [Sge(region, at * unit, (size - at) * unit), Sge(region, 0, (length - (size - at)) * unit)];
      TwoChunks(region, size, unit, offset, length, m);
    }
  }

  lemma OneChunk(region: Region, size: nat, unit: nat, offset: nat, length: nat, m: Memory)
    requires size > 0 && unit > 0 && 0 < length && offset % size + length <= size
    requires |m.Of(region)| == size * unit > 0
    ensures var list := [Sge(region, (offset % size) * unit, length * unit)];
            AllIn(m, list) && Gathered(m, list) == RingSlice(m.Of(region), offset * unit, length * unit)
  {
    hide RingSlice, At;
    var at := offset % size;
    var e := Sge(region, at * unit, length * unit);
    ScaledSlot(offset, size, unit);
    ScaleMonotone(0, length, unit);
    ScaleMonotone(at + length, size, unit);
    assert (at + length) * unit == at * unit + length * unit;
    SliceOneChunk(m.Of(region), offset * unit, length * unit, at * unit);
    GatheredOne(m, e);
  }

  lemma TwoChunks(region: Region, size: nat, unit: nat, offset: nat, length: nat, m: Memory)
    requires size > 0 && unit > 0 && 0 < length <= size < offset % size + length
    requires |m.Of(region)| == size * unit > 0
    ensures var at := offset % size;
            var list := [Sge(region, at * unit, (size - at) * unit), Sge(region, 0, (length - (size - at)) * unit)];
            AllIn(m, list) && Gathered(m, list) == RingSlice(m.Of(region), offset * unit, length * unit)
  {
    hide Gathered, RingSlice, At, Piece;
    var at := offset % size;
    var rest := length - (size - at);
    ScaledSlot(offset, size, unit);
    ScaleMonotone(0, size - at, unit);
    ScaleMonotone(0, rest, unit);
    ScaleMonotone(rest, size, unit);
    ScaleMonotone(length, size, unit);
    ScaleDifference(size, at, unit);
    ScaleDifference(length, size - at, unit);
    TwoPieces(region, offset * unit, length * unit, at * unit, m);
  }

  lemma ScaleDifference(a: nat, b: nat, unit: nat)
    requires b <= a
    ensures (a - b) * unit == a * unit - b * unit
  {
  }

  /** Two stretches, up to the border and from the start. */
  lemma TwoPieces(region: Region, pos: nat, len: nat, at: nat, m: Memory)
    requires var n := |m.Of(region)|; 0 < n && at == pos % n && len <= n < at + len
    ensures var n := |m.Of(region)|;
            var list := [Sge(region, at, n - at), Sge(region, 0, len - (n - at))];
            AllIn(m, list) && Gathered(m, list) == RingSlice(m.Of(region), pos, len)
  {
    hide Gathered, RingSlice, At;
    var n := |m.Of(region)|;
    var e, f := Sge(region, at, n - at), Sge(region, 0, len - (n - at));
    SliceTwoChunks(m.Of(region), pos, len, at);
    GatheredOne(m, e);
    GatheredSnoc(m, [e], f);
    assert [e] + [f] == [e, f];
    assert Piece(m, e) == m.Of(region)[at..];
  }

  lemma ScaleMonotone(a: nat, b: nat, unit: nat)
    requires a <= b && unit > 0
    ensures a * unit <= b * unit
    ensures (a > 0 ==> a * unit > 0) && (a < b ==> a * unit < b * unit)
  {
    assert b * unit == a * unit + (b - a) * unit;
    MultipleBounds(b - a, unit);
    MultipleBounds(a, unit);
  }

  lemma ScaledSlot(offset: nat, size: nat, unit: nat)
    requires size > 0 && unit > 0
    ensures size * unit > 0 && (offset * unit) % (size * unit) == (offset % size) * unit
  {
    ScaleMonotone(offset % size, size, unit);
    ScaleMonotone(0, size, unit);
    var q := offset / size;
    assert offset * unit == q * (size * unit) + (offset % size) * unit by {
      assert offset == q * size + offset % size;
      assert (q * size + offset % size) * unit == (q * size) * unit + (offset % size) * unit;
      assert (q * size) * unit == q * (size * unit);
    }
    RemainderUnique(offset * unit, size * unit, q, (offset % size) * unit);
  }

  /** Comparing the first with the last slot tells whether a stretch wraps. */
  lemma LastSlot(offset: nat, length: nat, size: nat)
    requires 0 < length <= size
    ensures offset % size <= (offset + length - 1) % size <==> offset % size + length <= size
  {
    var at := offset % size;
    if at + length <= size {
      RemainderUnique(offset + length - 1, size, offset / size, at + length - 1);
    } else {
      RemainderUnique(offset + length - 1, size, offset / size + 1, at + length - 1 - size);
    }
  }

  /** The list for one timeslice: its descriptors, then its content if there is any. */
  method PostSendData(descSize: nat, dataSize: nat, descOffset: nat, descLength: nat, dataOffset: nat, dataLength: nat,
                      ghost m: Memory) returns (list: seq<Sge>)
    requires descSize > 0 && dataSize > 0
    requires 0 < descLength <= descSize && dataLength <= dataSize
    requires |m.desc| == descSize * MICROSLICE_DESCRIPTOR_BYTES && |m.data| == dataSize
    ensures AllIn(m, list) && |list| <= 4
    ensures Gathered(m, list) ==
            RingSlice(m.desc, descOffset * MICROSLICE_DESCRIPTOR_BYTES, descLength * MICROSLICE_DESCRIPTOR_BYTES)
            + RingSlice(m.data, dataOffset, dataLength)
  {
    ScaleMonotone(0, descSize, MICROSLICE_DESCRIPTOR_BYTES);
    list := Chunks(DescRegion, descSize, MICROSLICE_DESCRIPTOR_BYTES, descOffset, descLength, m);
    if dataLength != 0 {
      var content := Chunks(DataRegion, dataSize, 1, dataOffset, dataLength, m);
      GatheredAppend(m, list, content);
      list := list + content;
    }
  }

  lemma {:induction false} GatheredAppend(m: Memory, a: seq<Sge>, b: seq<Sge>)
    ensures Gathered(m, a + b) == Gathered(m, a) + Gathered(m, b)
  {
    hide Piece, Gathered;
    if |b| == 0 {
      assert a + b == a && b == [];
      EmptyGathered(m);
    } else {
      var b', e := b[..|b| - 1], b[|b| - 1];
      GatheredAppend(m, a, b');
      assert b == b' + [e] && a + b == (a + b') + [e];
      GatheredSnoc(m, a + b', e);
      GatheredSnoc(m, b', e);
    }
  }

  lemma PieceSplit(m: Memory, e: Sge, left: nat)
    requires InMemory(m, e) && 0 < left < e.length
    ensures var head, tail := Sge(e.region, e.addr, left), Sge(e.region, e.addr + left, e.length - left);
            InMemory(m, head) && InMemory(m, tail) && Piece(m, e) == Piece(m, head) + Piece(m, tail)
  {
  }

  lemma EmptyGathered(m: Memory)
    ensures Gathered(m, []) == []
  {
  }

  /** The split so far: of the entries gathering `g`, `kept` stays and `rest` follows. */
  ghost predicate Progress(m: Memory, kept: seq<Sge>, rest: seq<Sge>, g: seq<Byte>, i: nat, room: nat, left: nat)
  {
    && AllIn(m, kept) && AllIn(m, rest) && |kept| <= i
    && Gathered(m, kept) + Gathered(m, rest) == g
    && (|g| <= room ==> left == room - |g| && |kept| == i && rest == [])
    && (|g| > room ==> left == 0 && |Gathered(m, kept)| == room)
  }

  lemma KeepEntry(m: Memory, kept: seq<Sge>, rest: seq<Sge>, g: seq<Byte>, i: nat, room: nat, left: nat, e: Sge)
    requires Progress(m, kept, rest, g, i, room, left) && InMemory(m, e) && 0 < e.length <= left
    ensures |kept| == i && Progress(m, kept + [e], rest, g + Piece(m, e), i + 1, room, left - e.length)
  {
    hide Gathered, Piece;
    EmptyGathered(m);
    GatheredSnoc(m, kept, e);
    assert |g + Piece(m, e)| == |g| + e.length;
  }

  lemma CutEntry(m: Memory, kept: seq<Sge>, rest: seq<Sge>, g: seq<Byte>, i: nat, room: nat, left: nat, e: Sge)
    requires Progress(m, kept, rest, g, i, room, left) && InMemory(m, e) && 0 < left < e.length
    ensures |kept| == i
    ensures var head, tail := Sge(e.region, e.addr, left), Sge(e.region, e.addr + left, e.length - left);
            Progress(m, kept + [head], rest + [tail], g + Piece(m, e), i + 1, room, 0)
  {
    hide Gathered, Piece;
    var head, tail := Sge(e.region, e.addr, left), Sge(e.region, e.addr + left, e.length - left);
    EmptyGathered(m);
    PieceSplit(m, e, left);
    GatheredSnoc(m, kept, head);
    GatheredSnoc(m, rest, tail);
    assert |g + Piece(m, e)| == |g| + e.length;
  }

  lemma PassEntry(m: Memory, kept: seq<Sge>, rest: seq<Sge>, g: seq<Byte>, i: nat, room: nat, e: Sge)
    requires Progress(m, kept, rest, g, i, room, 0) && InMemory(m, e) && 0 < e.length
    ensures Progress(m, kept, rest + [e], g + Piece(m, e), i + 1, room, 0)
  {
    hide Gathered, Piece;
    EmptyGathered(m);
    GatheredSnoc(m, rest, e);
    assert (Gathered(m, kept) + Gathered(m, rest)) + Piece(m, e)
           == Gathered(m, kept) + (Gathered(m, rest) + Piece(m, e));
    assert |g + Piece(m, e)| == |g| + e.length;
  }

  /** Splits a list in place after `room` bytes, as the send routine does where the remote
      ring ends: `sge[..kept]` stays, `rest` goes to the start of the ring. */
  method Split(sge: array<Sge>, num: nat, room: nat, ghost m: Memory) returns (kept: nat, rest: seq<Sge>)
    requires num <= sge.Length
    requires AllIn(m, sge[..num]) && |Gathered(m, sge[..num])| > room
    modifies sge
    ensures kept <= num && AllIn(m, sge[..kept]) && AllIn(m, rest)
    ensures Gathered(m, sge[..kept]) == old(Gathered(m, sge[..num]))[..room]
    ensures Gathered(m, rest) == old(Gathered(m, sge[..num]))[room..]
  {
    hide Gathered, Piece, Progress;
    ghost var was := sge[..num];
    ghost var stays: seq<Sge> := [];
    var left: nat, cut: nat := room, 0;
    rest := [];
    EmptyGathered(m);
    NoProgress(m, room);
    assert was[..0] == [];
    for i := 0 to num
      invariant cut <= i && |stays| == i - cut && sge[..i - cut] == stays && sge[i..num] == was[i..]
      invariant Progress(m, stays, rest, Gathered(m, was[..i]), i, room, left)
    {
      var e := sge[i];
      assert e == was[i] && was[..i + 1] == was[..i] + [e];
      GatheredSnoc(m, was[..i], e);
      if e.length <= left {
        KeepEntry(m, stays, rest, Gathered(m, was[..i]), i, room, left, e);
        left := left - e.length;
        stays := stays + [e];
      } else if left != 0 {
        CutEntry(m, stays, rest, Gathered(m, was[..i]), i, room, left, e);
        rest := rest + [Sge(e.region, e.addr + left, e.length - left)];
        sge[i] := Sge(e.region, e.addr, left);
        stays := stays + [sge[i]];
        left := 0;
      } else {
        PassEntry(m, stays, rest, Gathered(m, was[..i]), i, room, e);
        rest := rest + [e];
        cut := cut + 1;
      }
    }
    assert was[..num] == was;
    AllProgress(m, stays, rest, Gathered(m, was), num, room, left);
    kept := num - cut;
  }

  lemma NoProgress(m: Memory, room: nat)
    ensures Progress(m, [], [], [], 0, room, room)
  {
  }

  lemma AllProgress(m: Memory, kept: seq<Sge>, rest: seq<Sge>, g: seq<Byte>, i: nat, room: nat, left: nat)
    requires Progress(m, kept, rest, g, i, room, left) && |g| > room
    ensures AllIn(m, kept) && AllIn(m, rest) && Gathered(m, kept) == g[..room] && Gathered(m, rest) == g[room..]
  {
    hide Gathered;
  }

  /** The remote writes for a list: exactly the data packets of the connection model. */
  method SendData(sge: array<Sge>, num: nat, s: ICC.SenderEnd, r: Rings, skip: nat, length: nat, ghost m: Memory)
    returns (kept: nat, rest: seq<Sge>, addr: nat)
    requires num <= sge.Length && AllIn(m, sge[..num]) && length == |Gathered(m, sge[..num])|
    modifies sge
    ensures kept <= num && AllIn(m, sge[..kept]) && AllIn(m, rest)
    ensures old(ICC.DataPackets(s, r, skip, Gathered(m, sge[..num]))) ==
            [DataWrite(addr, Gathered(m, sge[..kept]))] + (if rest == [] then [] else [DataWrite(0, Gathered(m, rest))])
  {
    hide Gathered, Piece, Pow2;
    EmptyGathered(m);
    addr := (s.cnWp.data + skip) % r.DataSize();
    var left := r.DataSize() - addr;
    if length > left {
      kept, rest := Split(sge, num, left, m);
    } else {
      kept, rest := num, [];
    }
  }

  // ---- the lists cover the timeslice -----------------------------------------------------

  /** The memory holds what the source's rings hold when `written` microslices are in. */
  ghost predicate HoldsSource(m: Memory, src: ICS.Source, written: nat)
  {
    && |m.desc| == src.DescSize() * MICROSLICE_DESCRIPTOR_BYTES && |m.data| == src.DataSize()
    && (forall k: nat :: SlotBytes(m.desc, k, src.DescSize()) == src.RingMs(written, k).raw)
    && (forall p: nat :: At(m.data, p) == src.RingByte(written, p))
  }

  ghost function SlotBytes(desc: seq<Byte>, k: nat, size: nat): seq<Byte>
    requires size > 0 && |desc| == size * MICROSLICE_DESCRIPTOR_BYTES
  {
    ScaleMonotone(k % size + 1, size, MICROSLICE_DESCRIPTOR_BYTES);
    desc[(k % size) * MICROSLICE_DESCRIPTOR_BYTES..(k % size + 1) * MICROSLICE_DESCRIPTOR_BYTES]
  }

  lemma {:induction false} SliceIsDescriptors(m: Memory, src: ICS.Source, written: nat, first: nat, len: nat)
    requires HoldsSource(m, src, written)
    ensures RingSlice(m.desc, first * MICROSLICE_DESCRIPTOR_BYTES, len * MICROSLICE_DESCRIPTOR_BYTES)
            == ICS.DescBytes(src.RingMss(written), first, len)
  {
    hide At, ICS.Newest, Pow2, RingSlice, HoldsSource, ICS.DescBytes, SlotBytes;
    var b := MICROSLICE_DESCRIPTOR_BYTES;
    HeldSizes(m, src, written);
    ScaleMonotone(0, src.DescSize(), b);
    DescBytesStep(src.RingMss(written), first, len);
    if len == 0 {
      assert |RingSlice(m.desc, first * b, 0)| == 0;
    } else {
      var k := first + len - 1;
      SliceIsDescriptors(m, src, written, first, len - 1);
      HeldSlot(m, src, written, k);
      OneDescriptor(m.desc, k, src.DescSize());
      SliceSnoc(m.desc, first * b, (len - 1) * b, b);
    }
  }

  lemma DescBytesStep(get: nat -> ICS.Microslice, first: nat, len: nat)
    ensures ICS.DescBytes(get, first, len) ==
            if len == 0 then [] else ICS.DescBytes(get, first, len - 1) + get(first + len - 1).raw
  {
  }

  lemma HeldSlot(m: Memory, src: ICS.Source, written: nat, k: nat)
    requires HoldsSource(m, src, written)
    ensures |m.desc| == src.DescSize() * MICROSLICE_DESCRIPTOR_BYTES
    ensures SlotBytes(m.desc, k, src.DescSize()) == src.RingMs(written, k).raw
  {
    hide SlotBytes, At, ICS.Newest, Pow2;
  }

  lemma OneDescriptor(desc: seq<Byte>, k: nat, size: nat)
    requires size > 0 && |desc| == size * MICROSLICE_DESCRIPTOR_BYTES
    ensures RingSlice(desc, k * MICROSLICE_DESCRIPTOR_BYTES, MICROSLICE_DESCRIPTOR_BYTES) == SlotBytes(desc, k, size)
  {
    hide At, RingSlice;
    var b := MICROSLICE_DESCRIPTOR_BYTES;
    ScaledSlot(k, size, b);
    ScaleMonotone(k % size + 1, size, b);
    SliceOneChunk(desc, k * b, b, (k % size) * b);
  }

  lemma SliceSnoc(ring: seq<Byte>, pos: nat, len: nat, more: nat)
    requires |ring| > 0
    ensures RingSlice(ring, pos, len + more) == RingSlice(ring, pos, len) + RingSlice(ring, pos + len, more)
  {
    hide At;
  }

  /** What the list of timeslice `ts` gathers is what the connection model sends for it. */
  lemma ListIsTimeslice(m: Memory, src: ICS.Source, sl: ICS.Slicing, written: nat, ts: nat, bytes: seq<Byte>)
    requires HoldsSource(m, src, written) && sl.size > 0
    requires var first := ICS.First(src, sl, ts);
             var from, end := src.RingMs(written, first).offset, src.RingMs(written, first + sl.Length() - 1).End();
             && from <= end
             && bytes == RingSlice(m.desc, first * MICROSLICE_DESCRIPTOR_BYTES,
                                   sl.Length() * MICROSLICE_DESCRIPTOR_BYTES)
                         + RingSlice(m.data, from, end - from)
    ensures bytes == ICS.Gather(src, sl, written, ts)
  {
    hide ICS.First, ICS.Newest, ICS.DescBytes, Pow2, At;
    var first := ICS.First(src, sl, ts);
    var from, end := src.RingMs(written, first).offset, src.RingMs(written, first + sl.Length() - 1).End();
    SliceIsDescriptors(m, src, written, first, sl.Length());
    SliceIsContent(m, src, written, from, end);
  }

  lemma SliceIsContent(m: Memory, src: ICS.Source, written: nat, from: nat, end: nat)
    requires HoldsSource(m, src, written) && from <= end
    ensures RingSlice(m.data, from, end - from) == ICS.DataBytes(src.RingBytes(written), from, end)
  {
    hide ICS.Newest, Pow2, At;
    forall k | 0 <= k < end - from
      ensures RingSlice(m.data, from, end - from)[k] == ICS.DataBytes(src.RingBytes(written), from, end)[k]
    {
      assert At(m.data, from + k) == src.RingByte(written, from + k);
    }
  }

  // ---- the whole way ---------------------------------------------------------------------

  /** An available timeslice fits into the source's rings, and its content does not run
      backwards. */
  lemma TimesliceBounds(inp: ICS.Input, src: ICS.Source, sl: ICS.Slicing)
    requires ICS.InputInv(inp, src, sl) && ICS.Available(inp, src, sl)
    ensures var first := ICS.First(src, sl, inp.timeslice);
            var from := src.RingMs(inp.written, first).offset;
            var end := src.RingMs(inp.written, first + sl.Length() - 1).End();
            sl.Length() <= src.DescSize() && from <= end <= from + src.DataSize()
  {
    hide ICS.Newest, Pow2, ICS.InputInv, ICS.First;
    ICS.AvailableInRings(inp, src, sl);
    ICS.ContentBounds(src, inp.written, ICS.First(src, sl, inp.timeslice), sl.Length());
  }

  /** From the sender's state to the posted writes: builds the list, splits it where the
      remote ring ends, and posts exactly the data packets of the protocol model. */
  method PostTimeslice(inp: ICS.Input, src: ICS.Source, sl: ICS.Slicing, s: ICC.SenderEnd, r: Rings, skip: nat,
                       ghost m: Memory)
    returns (sge: array<Sge>, kept: nat, rest: seq<Sge>, addr: nat)
    requires ICS.InputInv(inp, src, sl) && ICS.Available(inp, src, sl) && HoldsSource(m, src, inp.written)
    ensures kept <= sge.Length && AllIn(m, sge[..kept]) && AllIn(m, rest)
    ensures ICC.DataPackets(s, r, skip, ICS.Gather(src, sl, inp.written, inp.timeslice))
            == [DataWrite(addr, Gathered(m, sge[..kept]))]
               + (if rest == [] then [] else [DataWrite(0, Gathered(m, rest))])
  {
    hide Gathered, Piece, RingSlice, HoldsSource, ICS.InputInv, ICS.Newest, ICS.Gather, Pow2, ICC.DataPackets,
         ICS.First;
    TimesliceBounds(inp, src, sl);
    ICS.InputStarted(inp, src, sl);
    HeldSizes(m, src, inp.written);
    var first, length := ICS.First(src, sl, inp.timeslice), sl.Length();
    var from := src.RingMs(inp.written, first).offset;
    var end := src.RingMs(inp.written, first + length - 1).End();
    var list := PostSendData(src.DescSize(), src.DataSize(), first, length, from, end - from, m);
    sge := new Sge[4](i requires 0 <= i < 4 => if i < |list| then list[i] else Sge(DescRegion, 0, 0));
    assert sge[..|list|] == list;
    ListIsTimeslice(m, src, sl, inp.written, inp.timeslice, Gathered(m, list));
    var total := end - from + length * MICROSLICE_DESCRIPTOR_BYTES;
    kept, rest, addr := SendData(sge, |list|, s, r, skip, total, m);
  }

  lemma HeldSizes(m: Memory, src: ICS.Source, written: nat)
    requires HoldsSource(m, src, written)
    ensures |m.desc| == src.DescSize() * MICROSLICE_DESCRIPTOR_BYTES && |m.data| == src.DataSize()
  {
  }

  /** What data writes that land in order make of the remote ring. */
  function Landed(data: seq<Byte>, writes: seq<Packet>): (data': seq<Byte>)
    decreases |writes|
  {
    if |writes| == 0 then data
    else match writes[0]
      case DataWrite(addr, bytes) =>
        if addr + |bytes| <= |data| then Landed(data[..addr] + bytes + data[addr + |bytes|..], writes[1..])
        else Landed(data, writes[1..])
      case _ => Landed(data, writes[1..])
  }

  /** Split or not, the writes put the payload at consecutive positions of the remote ring and
      change nothing else. */
  lemma PacketsLand(s: ICC.SenderEnd, r: Rings, skip: nat, payload: seq<Byte>, data: seq<Byte>)
    requires |data| == r.DataSize() && |payload| <= |data|
    ensures Landed(data, ICC.DataPackets(s, r, skip, payload)) == MRB.Written(data, s.cnWp.data + skip, payload)
  {
    hide MRB.Written, Pow2, Landed;
    var w, size := s.cnWp.data + skip, |data|;
    var at := w % size;
    if at + |payload| <= size {
      MRB.WrittenUnwrapped(data, w, payload);
      LandedOne(data, at, payload);
    } else {
      MRB.WrittenWrapped(data, w, payload);
      LandedTwo(data, at, payload, size - at);
    }
  }

  lemma LandedOne(data: seq<Byte>, at: nat, bytes: seq<Byte>)
    requires at + |bytes| <= |data|
    ensures Landed(data, [DataWrite(at, bytes)]) == data[..at] + bytes + data[at + |bytes|..]
  {
    var ps := [DataWrite(at, bytes)];
    var mid := data[..at] + bytes + data[at + |bytes|..];
    assert ps[1..] == [];
    assert Landed(mid, ps[1..]) == mid;
  }

  lemma LandedTwo(data: seq<Byte>, at: nat, payload: seq<Byte>, a: nat)
    requires at + a == |data| && a <= |payload| <= |data|
    ensures Landed(data, [DataWrite(at, payload[..a]), DataWrite(0, payload[a..])])
            == payload[a..] + data[|payload| - a..|data| - a] + payload[..a]
  {
    var ps := [DataWrite(at, payload[..a]), DataWrite(0, payload[a..])];
    var mid := data[..at] + payload[..a];
    assert data[..at] + payload[..a] + data[at + a..] == mid;
    assert ps[1..] == [DataWrite(0, payload[a..])];
    assert Landed(data, ps) == Landed(mid, ps[1..]);
    LandedOne(mid, 0, payload[a..]);
    MRB.TwoChunks(data, mid, Landed(mid, ps[1..]), payload, a, at);
  }
}
