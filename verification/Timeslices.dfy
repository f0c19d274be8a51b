/** What a timeslice consists of, microslice by microslice and byte by byte. */
module Timeslices {
  import opened RingMath
  import opened Wire
  import opened InputChannelSender

  /** Microslice `m` is one of those cut out for timeslice `ts`. */
  ghost predicate Contains(src: Source, sl: Slicing, ts: nat, m: nat)
  {
    First(src, sl, ts) <= m < First(src, sl, ts) + sl.Length()
  }

  /** Timeslices start `size` microslices apart, and each has `overlap` more than that. */
  lemma ContainsExactly(src: Source, sl: Slicing, ts: nat, m: nat)
    ensures Contains(src, sl, ts, m) <==>
            ts * sl.size + src.startDesc <= m < (ts + 1) * sl.size + sl.overlap + src.startDesc
  {
    assert (ts + 1) * sl.size == ts * sl.size + sl.size;
  }

  /** Every microslice from the start index on is in the timeslice of its number, and in the one
      before exactly if it is one of the first `overlap`. */
  lemma Covered(src: Source, sl: Slicing, m: nat)
    requires sl.size > 0 && src.startDesc <= m
    ensures var ts, k := (m - src.startDesc) / sl.size, (m - src.startDesc) % sl.size;
            && Contains(src, sl, ts, m)
            && !Contains(src, sl, ts + 1, m)
            && (ts > 0 ==> (Contains(src, sl, ts - 1, m) <==> k < sl.overlap))
  {
    var ts, k := (m - src.startDesc) / sl.size, (m - src.startDesc) % sl.size;
    assert m - src.startDesc == ts * sl.size + k;
    ContainsExactly(src, sl, ts, m);
    ContainsExactly(src, sl, ts + 1, m);
    if ts > 0 {
      ContainsExactly(src, sl, ts - 1, m);
      assert (ts - 1) * sl.size == ts * sl.size - sl.size;
    }
  }

  // ---- byte by byte ---------------------------------------------------------------------------------

  /** `bytes` consists of the descriptors of `n` microslices from `first` on and then of their
      contents, with whatever lies between them in the data stream. */
  ghost predicate ConsistsOf(bytes: seq<Byte>, src: Source, first: nat, n: nat)
    requires n > 0
  {
    var from, end := src.ms(first).offset, src.ms(first + n - 1).End();
    && from <= end && |bytes| == 32 * n + (end - from)
    && (forall k: nat :: k < n ==> DescriptorAt(bytes, src, first, k))
    && (forall j: nat :: 32 * n <= j < |bytes| ==> bytes[j] == src.data(from + (j - 32 * n)))
  }

  /** The descriptor of the microslice `k` behind `first`. */
  ghost predicate DescriptorAt(bytes: seq<Byte>, src: Source, first: nat, k: nat)
  {
    32 * k + 32 <= |bytes| && bytes[32 * k..32 * k + 32] == src.ms(first + k).raw
  }

  lemma {:induction false} DescriptorsAre(src: Source, first: nat, n: nat, k: nat)
    requires src.Valid()
    ensures |DescBytes(src.ms, first, n)| == 32 * n
    ensures k < n ==> DescriptorAt(DescBytes(src.ms, first, n), src, first, k)
    decreases n
  {
    if n > 0 {
      DescriptorsAre(src, first, n - 1, if k < n - 1 then k else 0);
      var before, last := DescBytes(src.ms, first, n - 1), src.ms(first + n - 1).raw;
      var all := DescBytes(src.ms, first, n);
      assert all == before + last;
      if k < n - 1 {
        assert all[32 * k..32 * k + 32] == before[32 * k..32 * k + 32];
      } else if k == n - 1 {
        assert all[32 * k..32 * k + 32] == last;
      }
    }
  }

  /** The contents of `n` microslices do not run backwards. */
  lemma Forwards(src: Source, first: nat, n: nat)
    requires src.Valid() && n > 0 && src.startDesc <= first
    ensures src.ms(first).offset <= src.ms(first + n - 1).End()
  {
    if n > 1 {
      EndMonotone(src, first + 1, first + n - 1);
    }
  }

  /** A timeslice is made of `size + overlap` microslices, from number `ts * size` after the
      start index on. */
  lemma PayloadIs(src: Source, sl: Slicing, ts: nat)
    requires src.Valid() && sl.size > 0
    ensures ConsistsOf(Payload(src, sl, ts), src, ts * sl.size + src.startDesc, sl.size + sl.overlap)
  {
    hide DescBytes;
    var first, n, bytes := ts * sl.size + src.startDesc, sl.size + sl.overlap, Payload(src, sl, ts);
    var from, end := src.ms(first).offset, src.ms(first + n - 1).End();
    Forwards(src, first, n);
    DescriptorsAre(src, first, n, 0);
    var head, tail := DescBytes(src.ms, first, n), DataBytes(src.data, from, end);
    assert bytes == head + tail;
    forall k: nat | k < n
      ensures DescriptorAt(bytes, src, first, k)
    {
      DescriptorsAre(src, first, n, k);
      assert bytes[32 * k..32 * k + 32] == head[32 * k..32 * k + 32];
    }
    forall j: nat | 32 * n <= j < |bytes|
      ensures bytes[j] == src.data(from + (j - 32 * n))
    {
      assert bytes[j] == tail[j - 32 * n];
    }
  }

  lemma Length(bytes: seq<Byte>, src: Source, first: nat, n: nat)
    requires n > 0 && ConsistsOf(bytes, src, first, n)
    ensures |bytes| >= 32 * n
  {
  }

  lemma DescriptorByte(bytes: seq<Byte>, src: Source, first: nat, n: nat, k: nat, i: nat)
    requires n > 0 && ConsistsOf(bytes, src, first, n) && k < n && i < 32 && |src.ms(first + k).raw| == 32
    ensures 32 * k + i < |bytes| && bytes[32 * k + i] == src.ms(first + k).raw[i]
  {
    assert DescriptorAt(bytes, src, first, k);
    assert bytes[32 * k + i] == bytes[32 * k..32 * k + 32][i];
  }

  /** The last `overlap` descriptors of a timeslice are the first ones of the next. */
  lemma OverlapRepeats(src: Source, sl: Slicing, ts: nat)
    requires src.Valid() && sl.size > 0 && sl.overlap <= sl.size
    ensures var a, b, n := Payload(src, sl, ts), Payload(src, sl, ts + 1), 32 * (sl.size + sl.overlap);
            && n <= |a| && 32 * sl.overlap <= |b|
            && a[32 * sl.size..n] == b[..32 * sl.overlap]
  {
    hide Payload, ConsistsOf;
    var a, b, first := Payload(src, sl, ts), Payload(src, sl, ts + 1), ts * sl.size + src.startDesc;
    PayloadIs(src, sl, ts);
    PayloadIs(src, sl, ts + 1);
    assert (ts + 1) * sl.size + src.startDesc == first + sl.size;
    Length(a, src, first, sl.size + sl.overlap);
    Length(b, src, first + sl.size, sl.size + sl.overlap);
    var n := sl.size + sl.overlap;
    var u, v := a[32 * sl.size..32 * n], b[..32 * sl.overlap];
    forall j: nat | j < 32 * sl.overlap
      ensures u[j] == v[j]
    {
      var k, i := j / 32, j % 32;
      DescriptorByte(a, src, first, n, sl.size + k, i);
      DescriptorByte(b, src, first + sl.size, n, k, i);
      assert first + (sl.size + k) == first + sl.size + k;
    }
  }
}
