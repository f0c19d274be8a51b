/** The input node: it cuts its microslice stream into timeslices, sends them, and gives
    buffer space back to the data source as its writes complete in any order. */
module InputChannelSender {
  import opened RingMath
  import opened Wire
  import opened Reorder

  /** A microslice descriptor: where the content lies and its bytes on the wire. */
  datatype Microslice = Microslice(offset: nat, size: nat, raw: seq<Byte>) {
    function End(): nat { offset + size }
  }

  /** A data source: everything it will ever deliver, and the sizes of its two rings. */
  datatype Source = Source(ms: nat -> Microslice, data: nat -> Byte,
                           startDesc: nat, startData: nat, rings: Rings) {
    function DescSize(): (r: nat) ensures r >= 1 { rings.DescSize() }
    function DataSize(): (r: nat) ensures r >= 1 { rings.DataSize() }

    /** Contents follow one another in the data stream, possibly with gaps. */
    ghost predicate Valid()
    {
      && startData <= ms(startDesc).offset
      && (forall m: nat :: Follows(m))
      && (forall m: nat :: |ms(m).raw| == MICROSLICE_DESCRIPTOR_BYTES)
    }

    ghost predicate Follows(m: nat) { ms(m).End() <= ms(m + 1).offset }

    /** Where the data of the microslices before `m` ends. */
    function EndAt(m: nat): nat { if m <= startDesc then startData else ms(m - 1).End() }

    /** What the descriptor ring holds in the slot of `m` when `written` microslices are in. */
    function RingMs(written: nat, m: nat): Microslice { ms(Newest(written, DescSize(), m)) }

    /** What the data ring holds in the cell of `pos`. */
    function RingByte(written: nat, pos: nat): Byte { data(Newest(EndAt(written), DataSize(), pos)) }

    function RingMss(written: nat): nat -> Microslice { (m: nat) => RingMs(written, m) }

    function RingBytes(written: nat): nat -> Byte { (p: nat) => RingByte(written, p) }
  }

  /** The newest position below `written` that shares a slot with `pos`. */
  function Newest(written: nat, size: nat, pos: nat): nat
    requires size > 0
  {
    var k := written - 1 - (written - 1 - pos) % size;
    if k < 0 then 0 else k
  }

  lemma NewestIsSelf(written: nat, size: nat, pos: nat)
    requires size > 0 && pos < written <= pos + size
    ensures Newest(written, size, pos) == pos
  {
    RemainderUnique(written - 1 - pos, size, 0, written - 1 - pos);
  }

  lemma {:induction false} EndMonotone(src: Source, a: nat, b: nat)
    requires src.Valid() && src.startDesc <= a <= b
    ensures src.EndAt(a) <= src.EndAt(b)
    ensures src.EndAt(b) <= src.ms(b).offset
    decreases b - a
  {
    if b > src.startDesc {
      assert src.Follows(b - 1);
    }
    if a < b {
      EndMonotone(src, a, b - 1);
    }
  }

  // ---- timeslices --------------------------------------------------------------------

  /** Microslices per timeslice, of which `overlap` more are repeated in the next one. */
  datatype Slicing = Slicing(size: nat, overlap: nat) {
    function Length(): nat { size + overlap }
  }

  function First(src: Source, sl: Slicing, ts: nat): nat { ts * sl.size + src.startDesc }

  function DescBytes(get: nat -> Microslice, first: nat, len: nat): seq<Byte>
  {
    if len == 0 then [] else DescBytes(get, first, len - 1) + get(first + len - 1).raw
  }

  function DataBytes(get: nat -> Byte, from: nat, end: nat): seq<Byte>
  {
    if end <= from then [] else seq(end - from, k requires 0 <= k < end - from => get(from + k))
  }

  /** Descriptors followed by content: what `len` microslices from `first` on consist of. */
  function Content(getMs: nat -> Microslice, getByte: nat -> Byte, first: nat, len: nat): seq<Byte>
    requires len > 0
  {
    DescBytes(getMs, first, len) + DataBytes(getByte, getMs(first).offset, getMs(first + len - 1).End())
  }

  /** What timeslice `ts` of this source consists of. */
  function Payload(src: Source, sl: Slicing, ts: nat): seq<Byte>
    requires sl.size > 0
  {
    Content(src.ms, src.data, First(src, sl, ts), sl.Length())
  }

  /** The same, read out of the rings as they are when `written` microslices are in. */
  function Gather(src: Source, sl: Slicing, written: nat, ts: nat): seq<Byte>
    requires sl.size > 0
  {
    Content(src.RingMss(written), src.RingBytes(written), First(src, sl, ts), sl.Length())
  }

  /** Timeslice `ts` is completely in the rings: neither missing nor overwritten. */
  ghost predicate InRings(src: Source, sl: Slicing, written: nat, ts: nat)
  {
    var first := First(src, sl, ts);
    && first + sl.Length() <= written <= first + src.DescSize()
    && src.EndAt(written) <= src.ms(first).offset + src.DataSize()
  }

  lemma GatherIsPayload(src: Source, sl: Slicing, written: nat, ts: nat)
    requires src.Valid() && sl.size > 0 && InRings(src, sl, written, ts)
    ensures Gather(src, sl, written, ts) == Payload(src, sl, ts)
  {
    ContentInRings(src, written, First(src, sl, ts), sl.Length());
  }

  lemma ContentInRings(src: Source, written: nat, first: nat, len: nat)
    requires src.Valid() && len > 0 && src.startDesc <= first
    requires first + len <= written <= first + src.DescSize()
    requires src.EndAt(written) <= src.ms(first).offset + src.DataSize()
    ensures Content(src.RingMss(written), src.RingBytes(written), first, len) == Content(src.ms, src.data, first, len)
  {
    hide Newest, Pow2, DescBytes, DataBytes;
    GatheredDescriptors(src, written, first, len);
    GatheredContent(src, written, first, len);
    assert src.RingMss(written)(first) == src.RingMs(written, first) == src.ms(first);
    assert src.RingMss(written)(first + len - 1) == src.RingMs(written, first + len - 1) == src.ms(first + len - 1);
  }

  lemma GatheredDescriptors(src: Source, written: nat, first: nat, len: nat)
    requires first + len <= written <= first + src.DescSize()
    ensures forall m :: first <= m < first + len ==> src.RingMs(written, m) == src.ms(m)
    ensures DescBytes(src.RingMss(written), first, len) == DescBytes(src.ms, first, len)
  {
    forall m | first <= m < first + len
      ensures src.RingMs(written, m) == src.ms(m)
    {
      NewestIsSelf(written, src.DescSize(), m);
    }
    SameDescBytes(src.ms, src.RingMss(written), first, len);
  }

  /** The content of `len` microslices does not run backwards and fits into the data ring. */
  lemma ContentBounds(src: Source, written: nat, first: nat, len: nat)
    requires src.Valid() && len > 0 && src.startDesc <= first
    requires first + len <= written <= first + src.DescSize()
    requires src.EndAt(written) <= src.ms(first).offset + src.DataSize()
    ensures var from, end := src.RingMs(written, first).offset, src.RingMs(written, first + len - 1).End();
            from <= end <= from + src.DataSize()
  {
    NewestIsSelf(written, src.DescSize(), first);
    NewestIsSelf(written, src.DescSize(), first + len - 1);
    hide Newest, Pow2;
    if len > 1 {
      EndMonotone(src, first + 1, first + len - 1);
    }
    EndMonotone(src, first + len, written);
  }

  lemma GatheredContent(src: Source, written: nat, first: nat, len: nat)
    requires src.Valid() && len > 0 && src.startDesc <= first && first + len <= written
    requires src.EndAt(written) <= src.ms(first).offset + src.DataSize()
    ensures var from, end := src.ms(first).offset, src.ms(first + len - 1).End();
            DataBytes(src.RingBytes(written), from, end) == DataBytes(src.data, from, end)
  {
    var from, end := src.ms(first).offset, src.ms(first + len - 1).End();
    EndMonotone(src, first + len, written);
    forall p | from <= p < end
      ensures src.RingByte(written, p) == src.data(p)
    {
      NewestIsSelf(src.EndAt(written), src.DataSize(), p);
    }
  }

  lemma {:induction false} SameDescBytes(f: nat -> Microslice, g: nat -> Microslice, first: nat, len: nat)
    requires forall m :: first <= m < first + len ==> f(m) == g(m)
    ensures DescBytes(f, first, len) == DescBytes(g, first, len)
  {
    if len > 0 {
      SameDescBytes(f, g, first, len - 1);
    }
  }

  // ---- the sender's own state --------------------------------------------------------

  /** `written` is the source's write index, `readDesc` and `readData` the read index given
      back to it; `done` are the completions recorded in the sender's reorder ring. */
  datatype Input = Input(
    timeslice: nat, ackedDesc: nat, ackedData: nat, done: set<nat>,
    readDesc: nat, readData: nat, written: nat, abort: bool, finalizing: bool)

  function InitialInput(src: Source): Input
  {
    Input(0, src.startDesc, src.startData, {}, src.startDesc, src.startData, src.startDesc, false, false)
  }

  function AckedTs(inp: Input, src: Source, sl: Slicing): nat
    requires sl.size > 0 && inp.ackedDesc >= src.startDesc
  {
    TsOf(src, sl, inp.ackedDesc)
  }

  /** The timeslice that starts at microslice `desc`. */
  function TsOf(src: Source, sl: Slicing, desc: nat): nat
    requires sl.size > 0 && desc >= src.startDesc
  {
    (desc - src.startDesc) / sl.size
  }

  /** A quarter of a ring has become free since the read index was last given back. */
  predicate Far(src: Source, ackedDesc: nat, ackedData: nat, readDesc: nat, readData: nat)
  {
    ackedData >= readData + src.DataSize() / 4 || ackedDesc >= readDesc + src.DescSize() / 4
  }

  function PublishIfFar(inp: Input, src: Source): Input
  {
    if Far(src, inp.ackedDesc, inp.ackedData, inp.readDesc, inp.readData)
    then inp.(readDesc := inp.ackedDesc, readData := inp.ackedData)
    else inp
  }

  function SyncSource(inp: Input): Input
  {
    if inp.ackedData > inp.readData || inp.ackedDesc > inp.readDesc
    then inp.(readDesc := inp.ackedDesc, readData := inp.ackedData)
    else inp
  }

  /** The write of timeslice `ts` has completed. */
  ghost function WriteCompleted(inp: Input, src: Source, sl: Slicing, ts: nat): Input
    requires sl.size > 0 && inp.ackedDesc >= src.startDesc
  {
    var ackedTs := AckedTs(inp, src, sl);
    if ts != ackedTs then
      inp.(done := CompleteDone(ackedTs, inp.done, ts))
    else
      var ackedTs' := CompleteAcked(ackedTs, inp.done, ts);
      var ackedDesc := First(src, sl, ackedTs');
      var ackedData := src.RingMs(inp.written, ackedDesc - 1).End();
      PublishIfFar(inp.(done := CompleteDone(ackedTs, inp.done, ts), ackedDesc := ackedDesc, ackedData := ackedData),
                   src)
  }

  /** The source delivers one more microslice, as far as the read index leaves room. */
  function Produce(inp: Input, src: Source): Input
  {
    if inp.written + 1 <= inp.readDesc + src.DescSize() && src.EndAt(inp.written + 1) <= inp.readData + src.DataSize()
    then inp.(written := inp.written + 1)
    else inp
  }

  /** The next timeslice can be cut out of what the source has delivered. */
  predicate Available(inp: Input, src: Source, sl: Slicing)
  {
    inp.written >= First(src, sl, inp.timeslice) + sl.Length()
  }

  ghost predicate InOrder(inp: Input, ackedTs: nat)
  {
    ackedTs <= inp.timeslice && forall t :: t in inp.done ==> ackedTs < t < inp.timeslice
  }

  ghost predicate InputInv(inp: Input, src: Source, sl: Slicing)
  {
    && src.Valid() && sl.size > 0
    && inp.ackedDesc >= src.startDesc
    && InOrder(inp, AckedTs(inp, src, sl))
    && inp.ackedDesc == First(src, sl, AckedTs(inp, src, sl))
    && inp.ackedData == src.EndAt(inp.ackedDesc)
    && src.startDesc <= inp.readDesc <= inp.ackedDesc <= inp.written <= inp.readDesc + src.DescSize()
    && inp.readData <= inp.ackedData
    && src.EndAt(inp.written) <= inp.readData + src.DataSize()
    && (inp.timeslice > 0 ==> First(src, sl, inp.timeslice - 1) + sl.Length() <= inp.written)
    && CaughtUp(inp, src)
  }

  /** The source has all buffer space back that is free, or all but less than a quarter of each
      ring. */
  ghost predicate CaughtUp(inp: Input, src: Source)
  {
    || (inp.readDesc == inp.ackedDesc && inp.readData == inp.ackedData)
    || (inp.ackedDesc < inp.readDesc + src.DescSize() / 4 && inp.ackedData < inp.readData + src.DataSize() / 4)
  }

  /** Space is given back when a quarter of a ring has become free, and not before. */
  lemma GivenBackExactly(inp: Input, src: Source, sl: Slicing, ts: nat)
    requires sl.size > 0 && inp.ackedDesc >= src.startDesc && CaughtUp(inp, src)
    ensures var inp' := WriteCompleted(inp, src, sl, ts);
            var quarter := || inp'.ackedDesc >= inp.readDesc + src.DescSize() / 4
                           || inp'.ackedData >= inp.readData + src.DataSize() / 4;
            && CaughtUp(inp', src)
            && (inp'.ackedDesc > inp.ackedDesc ==>
                  (inp'.readDesc, inp'.readData) == if quarter then (inp'.ackedDesc, inp'.ackedData)
                                                    else (inp.readDesc, inp.readData))
  {
    hide First, TsOf, CompleteAcked, CompleteDone;
  }

  lemma InputStarted(inp: Input, src: Source, sl: Slicing)
    requires InputInv(inp, src, sl)
    ensures sl.size > 0 && src.startDesc <= inp.ackedDesc
  {
  }

  lemma FirstMonotone(src: Source, sl: Slicing, a: nat, b: nat)
    requires a <= b
    ensures First(src, sl, a) <= First(src, sl, b)
    ensures First(src, sl, a + 1) == First(src, sl, a) + sl.size
  {
    assert b * sl.size == a * sl.size + (b - a) * sl.size;
    assert (a + 1) * sl.size == a * sl.size + sl.size;
  }

  /** The read index never passes the first microslice, nor its first byte, of a timeslice
      whose write is incomplete: such a timeslice stays in the rings. */
  lemma ReadIndexSafe(inp: Input, src: Source, sl: Slicing, ts: nat)
    requires InputInv(inp, src, sl)
    requires AckedTs(inp, src, sl) <= ts
    requires ts < inp.timeslice || (ts == inp.timeslice && Available(inp, src, sl))
    ensures inp.readDesc <= First(src, sl, ts)
    ensures inp.readData <= src.ms(First(src, sl, ts)).offset
    ensures InRings(src, sl, inp.written, ts)
  {
    var ackedTs := AckedTs(inp, src, sl);
    FirstMonotone(src, sl, ackedTs, ts);
    if ts < inp.timeslice {
      FirstMonotone(src, sl, ts, inp.timeslice - 1);
    }
    EndMonotone(src, inp.ackedDesc, First(src, sl, ts));
  }

  /** The next timeslice, if available, is completely in the rings. */
  lemma AvailableInRings(inp: Input, src: Source, sl: Slicing)
    requires InputInv(inp, src, sl) && Available(inp, src, sl)
    ensures src.Valid() && sl.size > 0 && src.startDesc <= First(src, sl, inp.timeslice)
    ensures InRings(src, sl, inp.written, inp.timeslice)
  {
    hide First, TsOf, Pow2;
    ReadIndexSafe(inp, src, sl, inp.timeslice);
  }

  /** The number of entries the sender's reorder ring is allocated for. */
  function AckEntries(src: Source, sl: Slicing): nat
    requires sl.size > 0
  {
    src.DescSize() / sl.size + 1
  }

  /** The timeslices in flight always fit into the reorder ring. */
  lemma InFlightFits(inp: Input, src: Source, sl: Slicing)
    requires InputInv(inp, src, sl)
    ensures inp.timeslice - AckedTs(inp, src, sl) < AckEntries(src, sl)
  {
    hide First, TsOf, Pow2, AckEntries;
    var ackedTs := AckedTs(inp, src, sl);
    FirstDistance(src, sl, ackedTs, inp.timeslice);
    if inp.timeslice > ackedTs {
      FirstMonotone(src, sl, inp.timeslice - 1, inp.timeslice);
    }
    EntriesBound(src, sl, inp.timeslice - ackedTs);
  }

  lemma EntriesBound(src: Source, sl: Slicing, k: nat)
    requires sl.size > 0 && k * sl.size <= src.DescSize()
    ensures k < AckEntries(src, sl)
  {
    QuotientBound(k, sl.size, src.DescSize());
  }

  lemma FirstDistance(src: Source, sl: Slicing, a: nat, b: nat)
    requires a <= b
    ensures First(src, sl, b) == First(src, sl, a) + (b - a) * sl.size
  {
    assert b * sl.size == a * sl.size + (b - a) * sl.size;
  }

  lemma QuotientBound(k: nat, d: nat, n: nat)
    requires d > 0 && k * d <= n
    ensures k <= n / d
  {
    var q := n / d;
    assert n < (q + 1) * d by {
      assert n == q * d + n % d;
      assert (q + 1) * d == q * d + d;
    }
    assert k * d == (q + 1) * d + (k - q - 1) * d;
    MultipleBounds(k - q - 1, d);
  }

  lemma QuotientOfFirst(src: Source, sl: Slicing, ts: nat)
    requires sl.size > 0
    ensures forall inp: Input :: inp.ackedDesc == First(src, sl, ts) ==> AckedTs(inp, src, sl) == ts
  {
    RemainderUnique(ts * sl.size, sl.size, ts, 0);
  }

  lemma WriteCompletedKeeps(inp: Input, src: Source, sl: Slicing, ts: nat)
    requires InputInv(inp, src, sl)
    requires AckedTs(inp, src, sl) <= ts < inp.timeslice && ts !in inp.done
    ensures InputInv(WriteCompleted(inp, src, sl, ts), src, sl)
    ensures WriteCompleted(inp, src, sl, ts).timeslice == inp.timeslice
    ensures AckedTs(WriteCompleted(inp, src, sl, ts), src, sl) == CompleteAcked(AckedTs(inp, src, sl), inp.done, ts)
    ensures WriteCompleted(inp, src, sl, ts).done == CompleteDone(AckedTs(inp, src, sl), inp.done, ts)
  {
    hide First, Newest, AckedTs;
    var ackedTs := AckedTs(inp, src, sl);
    CompleteRefinesSet(ackedTs, inp.done, ts);
    if ts == ackedTs {
      var ackedTs' := CompleteAcked(ackedTs, inp.done, ts);
      assert inp.timeslice !in Completed(ackedTs, inp.done) + iset{ts};
      AdvanceKeepsInput(inp, src, sl, ackedTs, ackedTs', CompleteDone(ackedTs, inp.done, ts));
    } else {
      SameAckedTs(inp, WriteCompleted(inp, src, sl, ts), src, sl);
    }
  }

  lemma SameAckedTs(inp: Input, inp': Input, src: Source, sl: Slicing)
    requires sl.size > 0 && inp.ackedDesc == inp'.ackedDesc >= src.startDesc
    ensures AckedTs(inp, src, sl) == AckedTs(inp', src, sl)
  {
  }

  lemma AdvanceKeepsInput(inp: Input, src: Source, sl: Slicing, ackedTs: nat, ackedTs': nat, done': set<nat>)
    requires InputInv(inp, src, sl) && ackedTs == AckedTs(inp, src, sl)
    requires ackedTs < ackedTs' <= inp.timeslice
    requires forall t :: t in done' ==> ackedTs' < t < inp.timeslice
    ensures var ackedDesc := First(src, sl, ackedTs');
            && ackedDesc > 0
            && var inp' := inp.(done := done', ackedDesc := ackedDesc,
                                ackedData := src.RingMs(inp.written, ackedDesc - 1).End());
               && InputInv(PublishIfFar(inp', src), src, sl)
               && AckedTs(PublishIfFar(inp', src), src, sl) == ackedTs'
  {
    hide First, Newest, AckedTs;
    var ackedDesc := First(src, sl, ackedTs');
    QuotientOfFirst(src, sl, ackedTs');
    FirstMonotone(src, sl, ackedTs + 1, ackedTs');
    FirstMonotone(src, sl, ackedTs, ackedTs);
    FirstMonotone(src, sl, ackedTs' - 1, inp.timeslice - 1);
    FirstMonotone(src, sl, ackedTs' - 1, ackedTs');
    NewestIsSelf(inp.written, src.DescSize(), ackedDesc - 1);
    EndMonotone(src, inp.ackedDesc, ackedDesc);
  }

  lemma ProduceKeeps(inp: Input, src: Source, sl: Slicing)
    requires InputInv(inp, src, sl)
    ensures InputInv(Produce(inp, src), src, sl)
  {
    SameAckedTs(inp, Produce(inp, src), src, sl);
  }

  lemma SyncSourceKeeps(inp: Input, src: Source, sl: Slicing)
    requires InputInv(inp, src, sl)
    ensures InputInv(SyncSource(inp), src, sl)
  {
  }

  lemma SentKeeps(inp: Input, src: Source, sl: Slicing)
    requires InputInv(inp, src, sl) && Available(inp, src, sl)
    ensures InputInv(inp.(timeslice := inp.timeslice + 1), src, sl)
  {
  }

  /** The mutable sender, as far as write completions and the read index go. */
  class Sender {
    const src: Source
    const sl: Slicing
    const ack: array<nat>
    ghost var done: set<nat>
    var timeslice: nat
    var ackedDesc: nat
    var ackedData: nat
    var readDesc: nat
    var readData: nat
    var written: nat
    var abort: bool
    var finalizing: bool

    ghost predicate Valid()
      reads this, ack
    {
      && InputInv(State(), src, sl)
      && ack.Length >= AckEntries(src, sl)
      && Represents(ack[..], AckedTs(State(), src, sl), done)
    }

    ghost function State(): (inp: Input)
      reads this
    {
      Input(timeslice, ackedDesc, ackedData, done, readDesc, readData, written, abort, finalizing)
    }

    /** The reorder ring is sized by the number of timeslices the source's ring can hold. */
    constructor (src: Source, sl: Slicing)
      requires src.Valid() && sl.size > 0
      ensures Valid() && State() == InitialInput(src) && fresh(ack)
    {
      this.src, this.sl := src, sl;
      timeslice, ackedDesc, ackedData := 0, src.startDesc, src.startData;
      readDesc, readData, written := src.startDesc, src.startData, src.startDesc;
      abort, finalizing, done := false, false, {};
      var exponent := SizeExponent(AckEntries(src, sl));
      ack := new nat[Pow2(exponent)](_ => 0);
      new;
      QuotientOfFirst(src, sl, 0);
      ClearedRepresents(ack[..], 0);
    }

    /** The write of timeslice `ts` has completed, in whatever order. */
    method OnWriteCompletion(ts: nat)
      requires Valid()
      requires AckedTs(State(), src, sl) <= ts < timeslice && ts !in done
      modifies this, ack
      ensures Valid()
      ensures State() == WriteCompleted(old(State()), src, sl, ts)
    {
      hide InputInv, First, Newest, Pow2, TsOf, Far, AckEntries, Represents, FirstOpen, Above;
      ghost var was := State();
      InputStarted(was, src, sl);
      InFlightFits(was, src, sl);
      WriteCompletedKeeps(was, src, sl, ts);
      InputStarted(WriteCompleted(was, src, sl, ts), src, sl);
      var ackedTs := TsOf(src, sl, ackedDesc);
      var ackedTs' := Complete(ack, ackedTs, ts, done);
      done := CompleteDone(ackedTs, was.done, ts);
      if ts == ackedTs {
        FirstMonotone(src, sl, ackedTs' - 1, ackedTs');
        Acknowledge(ackedTs');
      }
    }

    method Acknowledge(ackedTs: nat)
      requires sl.size > 0 && First(src, sl, ackedTs) > 0
      modifies this`ackedDesc, this`ackedData, this`readDesc, this`readData
      ensures ackedDesc == First(src, sl, ackedTs)
      ensures ackedData == src.RingMs(written, ackedDesc - 1).End()
      ensures var far := Far(src, ackedDesc, ackedData, old(readDesc), old(readData));
              && readDesc == (if far then ackedDesc else old(readDesc))
              && readData == (if far then ackedData else old(readData))
    {
      hide First, Newest, Far, Pow2;
      ackedDesc := First(src, sl, ackedTs);
      ackedData := src.RingMs(written, ackedDesc - 1).End();
      if Far(src, ackedDesc, ackedData, readDesc, readData) {
        readData := ackedData;
        readDesc := ackedDesc;
      }
    }
  }
}
