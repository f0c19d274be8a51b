/** The data source's rings as memory that is written round and round: what the model reads out of
    them is what lies in the slot. */
module SourceRing {
  import opened RingMath
  import opened Wire
  import opened InputChannelSender

  /** A ring after entries `from` up to `top` of a stream were written, each into its slot. */
  function Filled<T>(ring: seq<T>, stream: nat -> T, from: nat, top: nat): (r: seq<T>)
    requires |ring| > 0
    ensures |r| == |ring|
    decreases top
  {
    if top <= from then ring
    else Filled(ring, stream, from, top - 1)[(top - 1) % |ring| := stream(top - 1)]
  }

  /** A slot holds the newest entry that went there. */
  lemma {:induction false} SlotHoldsNewest<T>(ring: seq<T>, stream: nat -> T, from: nat, top: nat, pos: nat)
    requires |ring| > 0 && from <= pos < top
    ensures from <= Newest(top, |ring|, pos) < top && Newest(top, |ring|, pos) % |ring| == pos % |ring|
    ensures Filled(ring, stream, from, top)[pos % |ring|] == stream(Newest(top, |ring|, pos))
    decreases top
  {
    var size, last := |ring|, top - 1;
    NewestStep(top, size, pos);
    if pos % size != last % size {
      assert pos != last;
      SlotHoldsNewest(ring, stream, from, top - 1, pos);
    }
  }

  /** The newest entry of a slot is the last one written if it went there, and otherwise what it
      was before. */
  lemma NewestStep(top: nat, size: nat, pos: nat)
    requires size > 0 && pos < top
    ensures (top - 1) % size == pos % size ==> Newest(top, size, pos) == top - 1
    ensures (top - 1) % size != pos % size ==> Newest(top, size, pos) == Newest(top - 1, size, pos)
  {
    var d := top - 1 - pos;
    var q, r := d / size, d % size;
    assert d == q * size + r;
    SameSlot(top - 1, pos, size, r);
    if r > 0 {
      RemainderUnique(d - 1, size, q, r - 1);
    }
  }

  /** Positions share a slot exactly if they are whole turns apart. */
  lemma SameSlot(a: nat, b: nat, size: nat, r: nat)
    requires size > 0 && b <= a && r == (a - b) % size
    ensures a % size == b % size <==> r == 0
  {
    var q, k, o := (a - b) / size, b / size, b % size;
    assert a - b == q * size + r && b == k * size + o;
    assert (q + k) * size == q * size + k * size;
    if o + r < size {
      RemainderUnique(a, size, q + k, o + r);
    } else {
      assert (q + k + 1) * size == (q + k) * size + size;
      RemainderUnique(a, size, q + k + 1, o + r - size);
    }
  }

  /** What the model reads from the descriptor ring is what lies there once the source has
      delivered `written` microslices, whatever was there before. */
  lemma DescriptorRing(src: Source, ring: seq<Microslice>, written: nat, m: nat)
    requires |ring| == src.DescSize() && src.startDesc <= m < written
    ensures src.RingMs(written, m) == Filled(ring, src.ms, src.startDesc, written)[m % |ring|]
  {
    hide Newest, Filled, Pow2;
    SlotHoldsNewest(ring, src.ms, src.startDesc, written, m);
  }

  /** Likewise for the data ring. */
  lemma DataRing(src: Source, ring: seq<Byte>, written: nat, pos: nat)
    requires |ring| == src.DataSize() && src.startData <= pos < src.EndAt(written)
    ensures src.RingByte(written, pos) == Filled(ring, src.data, src.startData, src.EndAt(written))[pos % |ring|]
  {
    hide Newest, Filled, Pow2;
    SlotHoldsNewest(ring, src.data, src.startData, src.EndAt(written), pos);
  }
}
