/** The shared-memory timeslice buffer: components are copied into per-input rings, workers
    complete timeslices in any order, one read index per ring follows. */
module ManagedTimesliceBuffer {
  import opened RingMath
  import opened Wire
  import opened Reorder
  import opened Connection
  import opened ManagedRingBuffer

  /** One component of a timeslice to be stored; its offset is decided here. */
  datatype Part = Part(tsNum: nat, payload: seq<Byte>, numMicroslices: nat)

  /** The buffer, and beside it the timeslices put so far, where their components were stored,
      and what was completed. */
  datatype Buffer = Buffer(desc: seq<Ring<Descriptor>>, data: seq<Ring<Byte>>, acked: nat, tsPos: nat, done: set<nat>,
                           puts: seq<seq<Part>>, sent: seq<seq<Component>>, finished: set<nat>)

  /** One component ring pair.  Everything outstanding lies unwrapped in the rings and is intact. */
  ghost predicate PairInv(d: Ring<Descriptor>, b: Ring<Byte>, sent: seq<Component>, acked: nat, tsPos: nat)
  {
    && d.Valid() && b.Valid() && Ordered(sent) && |sent| == tsPos && acked <= tsPos
    && d.write == tsPos && d.read == acked
    && b.write == WpAt(sent, tsPos).data && b.read == WpAt(sent, acked).data
    && forall p :: acked <= p < tsPos ==> SlotHolds(d.buf, sent, p) && BytesHold(b.buf, sent, p)
  }

  /** Component `i` of every timeslice put was stored as it was, at some offset. */
  ghost predicate Kept(puts: seq<seq<Part>>, sent: seq<Component>, i: nat)
  {
    |puts| == |sent| && forall p :: 0 <= p < |puts| ==> i < |puts[p]| && Stores(sent[p], puts[p][i])
  }

  ghost predicate Stores(k: Component, part: Part)
  {
    k.tsNum == part.tsNum && k.payload == part.payload && k.numMicroslices == part.numMicroslices
  }

  ghost predicate Inv(m: Buffer)
  {
    && 0 < |m.desc| == |m.data| == |m.sent|
    && (forall i :: 0 <= i < |m.desc| ==> PairInv(m.desc[i], m.data[i], m.sent[i], m.acked, m.tsPos))
    && (forall i :: 0 <= i < |m.desc| ==> Kept(m.puts, m.sent[i], i))
    && (forall p :: p in m.done ==> m.acked < p < m.tsPos)
    && (forall p: nat :: p in m.finished <==> p < m.acked || p in m.done)
  }

  // ---- storing -------------------------------------------------------------------------

  predicate PartFits(d: Ring<Descriptor>, b: Ring<Byte>, part: Part)
    requires d.Valid() && b.Valid()
  {
    b.Contiguous() >= |part.payload| && d.Available() >= 1
  }

  predicate AllValid(m: Buffer)
  {
    |m.desc| == |m.data| == |m.sent| && forall i :: 0 <= i < |m.desc| ==> m.desc[i].Valid() && m.data[i].Valid()
  }

  predicate Fits(m: Buffer, ts: seq<Part>)
    requires AllValid(m) && |ts| == |m.desc|
  {
    forall i :: 0 <= i < |ts| ==> PartFits(m.desc[i], m.data[i], ts[i])
  }

  /** Where the part goes: its offset follows the skip over the border. */
  function Placed(b: Ring<Byte>, part: Part): (k: Component)
    requires b.Valid() && |part.payload| <= |b.buf|
  {
    Component(part.tsNum, b.Skipped(|part.payload|).write, part.payload, part.numMicroslices)
  }

  lemma FittingPart(b: Ring<Byte>, part: Part)
    requires b.Valid() && b.Contiguous() >= |part.payload|
    ensures b.CanPlace(|part.payload|) && |part.payload| <= |b.buf|
  {
  }

  function StoredDesc(d: Ring<Descriptor>, b: Ring<Byte>, part: Part): (r: Ring<Descriptor>)
    requires d.Valid() && b.Valid() && |part.payload| <= |b.buf|
  {
    d.AppendedOne(Placed(b, part).Desc())
  }

  function StoredData(b: Ring<Byte>, part: Part): (r: Ring<Byte>)
    requires b.Valid() && |part.payload| <= |b.buf|
  {
    b.Skipped(|part.payload|).Appended(part.payload)
  }

  predicate Storable(m: Buffer, ts: seq<Part>)
  {
    AllValid(m) && |ts| == |m.desc| && forall i :: 0 <= i < |ts| ==> |ts[i].payload| <= |m.data[i].buf|
  }

  function Store(m: Buffer, ts: seq<Part>): (m': Buffer)
    requires Storable(m, ts)
  {
    m.(desc := seq(|ts|, i requires 0 <= i < |ts| => StoredDesc(m.desc[i], m.data[i], ts[i])),
       data := seq(|ts|, i requires 0 <= i < |ts| => StoredData(m.data[i], ts[i])),
       puts := m.puts + [ts],
       sent := seq(|ts|, i requires 0 <= i < |ts| => m.sent[i] + [Placed(m.data[i], ts[i])]),
       tsPos := m.tsPos + 1)
  }

  /** Storing a part that fits overwrites nothing outstanding. */
  lemma StorePartKeeps(d: Ring<Descriptor>, b: Ring<Byte>, sent: seq<Component>, acked: nat, tsPos: nat, part: Part)
    requires PairInv(d, b, sent, acked, tsPos) && PartFits(d, b, part)
    ensures |part.payload| <= |b.buf|
    ensures PairInv(StoredDesc(d, b, part), StoredData(b, part), sent + [Placed(b, part)], acked, tsPos + 1)
  {
    hide Written;
    FittingPart(b, part);
    var k := Placed(b, part);
    var n, size := |part.payload|, |b.buf|;
    var at := k.offset % size;
    WrittenUnwrapped(b.buf, k.offset, part.payload);
    var data', desc' := StoredData(b, part).buf, StoredDesc(d, b, part).buf;
    assert data' == b.buf[..at] + k.payload + b.buf[at + n..];
    SentGrows(sent, k);
    var sent' := sent + [k];
    assert forall m :: 0 <= m <= tsPos ==> WpAt(sent', m) == WpAt(sent, m);
    forall p | acked <= p < tsPos + 1
      ensures SlotHolds(desc', sent', p) && BytesHold(data', sent', p)
    {
      if p < tsPos {
        StoreLeaves(d, b, sent, acked, tsPos, part, p);
      } else {
        assert data'[at..at + n] == k.payload;
      }
    }
  }

  /** An outstanding component is left alone. */
  lemma StoreLeaves(d: Ring<Descriptor>, b: Ring<Byte>, sent: seq<Component>, acked: nat, tsPos: nat, part: Part,
                    p: nat)
    requires PairInv(d, b, sent, acked, tsPos) && PartFits(d, b, part) && |part.payload| <= |b.buf|
    requires acked <= p < tsPos
    ensures SlotHolds(StoredDesc(d, b, part).buf, sent + [Placed(b, part)], p)
    ensures BytesHold(StoredData(b, part).buf, sent + [Placed(b, part)], p)
  {
    hide Written;
    FittingPart(b, part);
    var k := Placed(b, part);
    assert SlotHolds(d.buf, sent, p) && BytesHold(b.buf, sent, p);
    SlotLeft(d, sent, p, tsPos, k);
    WpMonotone(sent, acked, p);
    WpMonotone(sent, p + 1, tsPos);
    assert WpAt(sent, p).data <= sent[p].offset;
    BytesLeft(b.buf, sent, p, k);
  }

  lemma SlotLeft(d: Ring<Descriptor>, sent: seq<Component>, p: nat, q: nat, k: Component)
    requires SlotHolds(d.buf, sent, p) && p < q < p + |d.buf| && d.write == q
    ensures SlotHolds(d.AppendedOne(k.Desc()).buf, sent + [k], p)
  {
    if p % |d.buf| == q % |d.buf| {
      SlotsDistinct(p, q, |d.buf|);
    }
  }

  lemma BytesLeft(buf: seq<Byte>, sent: seq<Component>, p: nat, k: Component)
    requires BytesHold(buf, sent, p) && k.offset % |buf| + |k.payload| <= |buf|
    requires sent[p].End() <= k.offset && k.End() <= sent[p].offset + |buf|
    ensures BytesHold(Written(buf, k.offset, k.payload), sent + [k], p)
  {
    hide Written;
    var size := |buf|;
    StretchesDisjoint(sent[p].offset, |sent[p].payload|, k.offset, |k.payload|, size);
    WrittenUnwrapped(buf, k.offset, k.payload);
    WriteElsewhere(buf, k.offset % size, k.payload, sent[p].offset % size, sent[p].payload);
  }

  lemma FitsStorable(m: Buffer, ts: seq<Part>)
    requires AllValid(m) && |ts| == |m.desc| && Fits(m, ts)
    ensures Storable(m, ts)
  {
    forall i | 0 <= i < |ts|
      ensures |ts[i].payload| <= |m.data[i].buf|
    {
      FittingPart(m.data[i], ts[i]);
    }
  }

  lemma StoreKeeps(m: Buffer, ts: seq<Part>)
    requires Inv(m) && |ts| == |m.desc| && AllValid(m) && Fits(m, ts)
    ensures Storable(m, ts) && Inv(Store(m, ts))
  {
    hide PairInv, PartFits;
    FitsStorable(m, ts);
    var m' := Store(m, ts);
    forall i | 0 <= i < |m.desc|
      ensures PairInv(m'.desc[i], m'.data[i], m'.sent[i], m.acked, m.tsPos + 1) && Kept(m'.puts, m'.sent[i], i)
    {
      assert PairInv(m.desc[i], m.data[i], m.sent[i], m.acked, m.tsPos);
      assert PartFits(m.desc[i], m.data[i], ts[i]);
      StorePartKeeps(m.desc[i], m.data[i], m.sent[i], m.acked, m.tsPos, ts[i]);
    }
  }

  lemma InvValid(m: Buffer)
    requires Inv(m)
    ensures AllValid(m)
  {
    forall i | 0 <= i < |m.desc|
      ensures m.desc[i].Valid() && m.data[i].Valid()
    {
      assert PairInv(m.desc[i], m.data[i], m.sent[i], m.acked, m.tsPos);
    }
  }

  // ---- completions ---------------------------------------------------------------------

  /** A work item that was sent and is not completed. */
  predicate Open(m: Buffer, p: nat) { m.acked <= p < m.tsPos && p !in m.done }

  /** Over every state that the invariant holds of: open are exactly the items sent and not
      completed, in whatever order completions come. */
  lemma OpenExactly(m: Buffer, p: nat)
    requires Inv(m)
    ensures Open(m, p) <==> p < m.tsPos && p !in m.finished
  {
    hide PairInv;
  }

  /** The data read index is taken from the last acknowledged descriptor. */
  function ReadEnd(d: Ring<Descriptor>, acked: nat): (r: nat)
    requires 0 < |d.buf| && acked > 0
  {
    var k := d.buf[(acked - 1) % |d.buf|];
    k.offset + k.size
  }

  ghost function Advanced(m: Buffer, acked: nat): (m': Buffer)
    requires AllValid(m) && acked > 0
  {
    m.(desc := seq(|m.desc|, i requires 0 <= i < |m.desc| => m.desc[i].(read := acked)),
       data := seq(|m.desc|, i requires 0 <= i < |m.desc| => m.data[i].(read := ReadEnd(m.desc[i], acked))),
       acked := acked)
  }

  ghost function CompleteOne(m: Buffer, p: nat): (m': Buffer)
    requires AllValid(m)
  {
    if !Open(m, p) then m
    else
      var acked := CompleteAcked(m.acked, m.done, p);
      (if p == m.acked then Advanced(m, acked) else m)
      .(done := CompleteDone(m.acked, m.done, p), finished := m.finished + {p})
  }

  lemma AdvancePairKeeps(d: Ring<Descriptor>, b: Ring<Byte>, sent: seq<Component>, acked: nat, tsPos: nat, acked': nat)
    requires PairInv(d, b, sent, acked, tsPos) && acked < acked' <= tsPos
    ensures PairInv(d.(read := acked'), b.(read := ReadEnd(d, acked')), sent, acked', tsPos)
  {
    assert SlotHolds(d.buf, sent, acked' - 1);
    WpMonotone(sent, acked, acked');
    WpMonotone(sent, acked', tsPos);
  }

  /** The new index stays within what was stored. */
  lemma AckedBound(m: Buffer, p: nat)
    requires Inv(m) && Open(m, p)
    ensures CompleteAcked(m.acked, m.done, p) <= m.tsPos
    ensures p == m.acked ==> m.acked < CompleteAcked(m.acked, m.done, p)
  {
    if p == m.acked {
      var r := FirstOpen(m.acked + 1, m.done);
      assert r > m.tsPos ==> m.tsPos in m.done;
    }
  }

  lemma CompleteKeeps(m: Buffer, p: nat)
    requires Inv(m)
    ensures AllValid(m) && Inv(CompleteOne(m, p))
  {
    hide PairInv, FirstOpen;
    InvValid(m);
    if Open(m, p) {
      var m' := CompleteOne(m, p);
      AckedBound(m, p);
      CompleteRefinesSet(m.acked, m.done, p);
      forall i | 0 <= i < |m.desc|
        ensures PairInv(m'.desc[i], m'.data[i], m'.sent[i], m'.acked, m'.tsPos)
      {
        assert PairInv(m.desc[i], m.data[i], m.sent[i], m.acked, m.tsPos);
        if p == m.acked {
          AdvancePairKeeps(m.desc[i], m.data[i], m.sent[i], m.acked, m.tsPos, m'.acked);
        }
      }
      forall q: nat
        ensures q in m'.finished <==> q < m'.acked || q in m'.done
      {
        assert q in Completed(m'.acked, m'.done) <==> q in Completed(m.acked, m.done) || q == p;
      }
    }
  }

  /** Completions received one after the other. */
  ghost function CompleteAll(m: Buffer, cs: seq<nat>): (m': Buffer)
    requires Inv(m)
    ensures Inv(m')
    decreases |cs|
  {
    if |cs| == 0 then m else (CompleteKeeps(m, cs[0]); CompleteAll(CompleteOne(m, cs[0]), cs[1..]))
  }

  /** Workers complete each item once, and only items they were given. */
  ghost predicate Honest(m: Buffer, cs: seq<nat>)
    requires Inv(m)
    decreases |cs|
  {
    |cs| > 0 ==> Open(m, cs[0]) && (CompleteKeeps(m, cs[0]); Honest(CompleteOne(m, cs[0]), cs[1..]))
  }

  // ---- runs ------------------------------------------------------------------------------

  datatype Outcome = WrongCount | Waiting | Stored

  /** `put`: poll until the timeslice fits.  `polls` holds what each poll receives. */
  ghost function PutOutcome(m: Buffer, ts: seq<Part>, polls: seq<seq<nat>>): (o: (Buffer, Outcome))
    requires Inv(m) && |ts| == |m.desc|
    ensures Inv(o.0) && o.1 != WrongCount
    ensures o.0.puts == m.puts + if o.1 == Stored then [ts] else []
    decreases |polls|
  {
    if |polls| == 0 then (m, Waiting)
    else
      var m1 := CompleteAll(m, polls[0]);
      CompleteAllShape(m, polls[0]);
      InvValid(m1);
      if Fits(m1, ts) then (StoreKeeps(m1, ts); (Store(m1, ts), Stored)) else PutOutcome(m1, ts, polls[1..])
  }

  /** The buffer after the completions of some polls. */
  ghost function AfterPolls(m: Buffer, polls: seq<seq<nat>>): (m': Buffer)
    requires Inv(m)
    ensures Inv(m') && |m'.desc| == |m.desc|
    decreases |polls|
  {
    CompleteAllShape(m, if |polls| == 0 then [] else polls[0]);
    if |polls| == 0 then m else AfterPolls(CompleteAll(m, polls[0]), polls[1..])
  }

  ghost predicate FitsAfter(m: Buffer, ts: seq<Part>, polls: seq<seq<nat>>)
    requires Inv(m) && |ts| == |m.desc|
  {
    InvValid(AfterPolls(m, polls));
    Fits(AfterPolls(m, polls), ts)
  }

  /** The timeslice is stored after the first poll after which it fits, and only then. */
  lemma {:induction false} PutExactly(m: Buffer, ts: seq<Part>, polls: seq<seq<nat>>) returns (k: nat)
    requires Inv(m) && |ts| == |m.desc|
    ensures k <= |polls| && forall j :: 0 < j <= k ==> !FitsAfter(m, ts, polls[..j])
    ensures k == |polls| ==> PutOutcome(m, ts, polls) == (AfterPolls(m, polls), Waiting)
    ensures k < |polls| ==>
              var m1 := AfterPolls(m, polls[..k + 1]);
              && FitsAfter(m, ts, polls[..k + 1]) && Storable(m1, ts)
              && PutOutcome(m, ts, polls) == (Store(m1, ts), Stored)
    decreases |polls|
  {
    hide Inv, Fits, CompleteAll, Store;
    if |polls| == 0 {
      k := 0;
    } else {
      var m1 := CompleteAll(m, polls[0]);
      CompleteAllShape(m, polls[0]);
      InvValid(m1);
      PollsTail(m, polls, 1);
      assert AfterPolls(m1, polls[1..][..0]) == m1;
      if Fits(m1, ts) {
        k := 0;
        StoreKeeps(m1, ts);
      } else {
        var rest := PutExactly(m1, ts, polls[1..]);
        k := rest + 1;
        forall j | 0 < j <= k
          ensures !FitsAfter(m, ts, polls[..j])
        {
          if j > 1 {
            PollsTail(m, polls, j);
            assert !FitsAfter(m1, ts, polls[1..][..j - 1]);
          }
        }
        if k < |polls| {
          PollsTail(m, polls, k + 1);
        }
      }
    }
  }

  lemma PollsTail(m: Buffer, polls: seq<seq<nat>>, j: nat)
    requires Inv(m) && 0 < j <= |polls|
    ensures AfterPolls(m, polls[..j]) == AfterPolls(CompleteAll(m, polls[0]), polls[1..][..j - 1])
  {
    hide Inv, CompleteAll;
    assert polls[..j][1..] == polls[1..][..j - 1];
  }

  /** A timeslice fits exactly if every component has a place in its ring and a descriptor slot
      is free. */
  lemma FitsExactly(m: Buffer, ts: seq<Part>)
    requires Inv(m) && |ts| == |m.desc|
    ensures AllValid(m)
    ensures Fits(m, ts) <==>
            forall i :: 0 <= i < |ts| ==>
                m.data[i].HasPlace(|ts[i].payload|) && m.tsPos < m.acked + |m.desc[i].buf|
  {
    InvValid(m);
    forall i | 0 <= i < |ts|
      ensures PartFits(m.desc[i], m.data[i], ts[i]) <==>
              m.data[i].HasPlace(|ts[i].payload|) && m.tsPos < m.acked + |m.desc[i].buf|
    {
      assert PairInv(m.desc[i], m.data[i], m.sent[i], m.acked, m.tsPos);
      hide Inv, PairInv;
      CanPlaceExactly(m.data[i], |ts[i].payload|);
    }
  }

  ghost predicate HonestPolls(m: Buffer, polls: seq<seq<nat>>)
    requires Inv(m)
    decreases |polls|
  {
    |polls| > 0 ==> Honest(m, polls[0]) && HonestPolls(CompleteAll(m, polls[0]), polls[1..])
  }

  lemma {:induction false} CompleteAllShape(m: Buffer, cs: seq<nat>)
    requires Inv(m)
    ensures var m' := CompleteAll(m, cs);
            |m'.desc| == |m.desc| && m'.sent == m.sent && m'.puts == m.puts && m'.tsPos == m.tsPos
    decreases |cs|
  {
    hide Inv, CompleteAcked, CompleteDone;
    if |cs| > 0 {
      CompleteKeeps(m, cs[0]);
      CompleteAllShape(CompleteOne(m, cs[0]), cs[1..]);
    }
  }

  datatype Step = Put(ts: seq<Part>) | Complete(pos: nat)

  /** A put that does not fit waits; a worker completes an item it holds. */
  ghost function Apply(m: Buffer, s: Step): (m': Buffer)
    requires Inv(m)
    ensures Inv(m')
  {
    InvValid(m);
    match s
    case Put(ts) => if |ts| == |m.desc| && Fits(m, ts) then (StoreKeeps(m, ts); Store(m, ts)) else m
    case Complete(p) => CompleteKeeps(m, p); CompleteOne(m, p)
  }

  /** A ring around each buffer, with nothing in it. */
  function Started<T>(bufs: seq<seq<T>>): (rings: seq<Ring<T>>)
  {
    seq(|bufs|, i requires 0 <= i < |bufs| => Ring(bufs[i], 0, 0))
  }

  function Initial(desc: seq<seq<Descriptor>>, data: seq<seq<Byte>>): (m: Buffer)
    requires |desc| == |data|
  {
    Buffer(Started(desc), Started(data), 0, 0, {}, [], seq(|desc|, _ => []), {})
  }

  lemma InitialInv(desc: seq<seq<Descriptor>>, data: seq<seq<Byte>>)
    requires 0 < |desc| == |data|
    requires forall i :: 0 <= i < |desc| ==> |desc[i]| > 0 && |data[i]| > 0
    ensures Inv(Initial(desc, data))
  {
  }

  ghost function Run(m: Buffer, steps: seq<Step>): (m': Buffer)
    requires Inv(m)
    ensures Inv(m')
    decreases |steps|
  {
    if |steps| == 0 then m else Run(Apply(m, steps[0]), steps[1..])
  }

  /** Over every run: what is outstanding lies in one stretch, byte for byte as it was put. */
  lemma OutstandingIntact(m0: Buffer, steps: seq<Step>, i: nat, p: nat)
    requires Inv(m0)
    requires var m := Run(m0, steps); i < |m.desc| && m.acked <= p < m.tsPos
    ensures var m := Run(m0, steps);
            && p < |m.puts| && i < |m.puts[p]|
            && var part, d := m.puts[p][i], m.desc[i].buf[p % |m.desc[i].buf|];
               var at, n := d.offset % |m.data[i].buf|, |part.payload|;
               && d == Descriptor(part.tsNum, d.offset, n, part.numMicroslices)
               && at + n <= |m.data[i].buf| && m.data[i].buf[at..at + n] == part.payload
  {
    var m := Run(m0, steps);
    assert PairInv(m.desc[i], m.data[i], m.sent[i], m.acked, m.tsPos);
    assert SlotHolds(m.desc[i].buf, m.sent[i], p) && BytesHold(m.data[i].buf, m.sent[i], p);
    assert Kept(m.puts, m.sent[i], i);
  }

  /** The timeslices put over a run are those of its steps that fit, in order. */
  lemma PutsAre(m: Buffer, s: Step)
    requires Inv(m)
    ensures AllValid(m) && Apply(m, s).puts
            == m.puts + if s.Put? && |s.ts| == |m.desc| && Fits(m, s.ts) then [s.ts] else []
  {
    hide Inv, Fits;
    InvValid(m);
    if s.Complete? {
      CompleteAllShape(m, [s.pos]);
      assert CompleteAll(m, [s.pos]) == CompleteOne(m, s.pos) by {
        assert [s.pos][1..] == [];
      }
    }
  }

  /** Over every run: the buffer reports empty exactly when every item sent was completed. */
  lemma EmptyExactly(m0: Buffer, steps: seq<Step>)
    requires Inv(m0)
    ensures var m := Run(m0, steps);
            m.acked == m.tsPos <==> (forall p: nat :: p < m.tsPos ==> p in m.finished)
  {
    var m := Run(m0, steps);
    assert PairInv(m.desc[0], m.data[0], m.sent[0], m.acked, m.tsPos);
    if m.acked < m.tsPos {
      assert m.acked !in m.finished;
    }
  }

  /** Once everything is completed, what fits depends on nothing but the write positions. */
  lemma DrainedFitsIff(m: Buffer, ts: seq<Part>)
    requires Inv(m) && m.acked == m.tsPos && |ts| == |m.desc|
    ensures AllValid(m)
    ensures Fits(m, ts) <==>
            forall i :: 0 <= i < |ts| ==> DrainedFits(|m.data[i].buf|, m.data[i].write, |ts[i].payload|)
  {
    hide DrainedFits;
    InvValid(m);
    forall i | 0 <= i < |ts|
      ensures PartFits(m.desc[i], m.data[i], ts[i]) <==> DrainedFits(|m.data[i].buf|, m.data[i].write, |ts[i].payload|)
    {
      assert PairInv(m.desc[i], m.data[i], m.sent[i], m.acked, m.tsPos);
      DrainedIs(m.data[i], |ts[i].payload|);
    }
  }

  /** Over every run: once everything is completed, components of at most half a ring fit. */
  lemma DrainedAccepts(m0: Buffer, steps: seq<Step>, ts: seq<Part>)
    requires Inv(m0)
    requires var m := Run(m0, steps);
             && m.acked == m.tsPos && |ts| == |m.desc|
             && forall i :: 0 <= i < |ts| ==> 2 * |ts[i].payload| <= |m.data[i].buf|
    ensures var m := Run(m0, steps); AllValid(m) && Fits(m, ts)
  {
    DrainedFitsIff(Run(m0, steps), ts);
  }

  /** A drained buffer has nothing left to complete. */
  lemma {:induction false} DrainedUnchanged(m: Buffer, cs: seq<nat>)
    requires Inv(m) && m.acked == m.tsPos
    ensures CompleteAll(m, cs) == m
    decreases |cs|
  {
    hide Inv;
    if |cs| > 0 {
      CompleteKeeps(m, cs[0]);
      DrainedUnchanged(m, cs[1..]);
    }
  }

  /** A timeslice that a drained buffer does not take is never taken, however long `put` polls. */
  lemma {:induction false} DrainedRefusesForever(m: Buffer, ts: seq<Part>, polls: seq<seq<nat>>)
    requires Inv(m) && m.acked == m.tsPos && |ts| == |m.desc| && AllValid(m) && !Fits(m, ts)
    ensures PutOutcome(m, ts, polls) == (m, Waiting)
    decreases |polls|
  {
    hide Inv, Fits;
    if |polls| > 0 {
      DrainedUnchanged(m, polls[0]);
      DrainedRefusesForever(m, ts, polls[1..]);
    }
  }

  /** Such a state is reachable: half a ring put and completed, then anything larger. */
  lemma RefusalReachable(bytes: seq<Byte>, slot: Descriptor, half: Part, big: Part, polls: seq<seq<nat>>)
    requires 2 * |half.payload| == |bytes| > 0 && 2 * |big.payload| > |bytes|
    ensures var m0 := Initial([[slot]], [bytes]);
            && Inv(m0)
            && var m := Run(m0, [Put([half]), Complete(0)]);
               m.acked == m.tsPos == 1 && |m.desc| == 1 && PutOutcome(m, [big], polls) == (m, Waiting)
  {
    hide Written, Inv, FirstOpen;
    InitialInv([[slot]], [bytes]);
    var m0 := Initial([[slot]], [bytes]);
    InvValid(m0);
    RemainderUnique(0, |bytes|, 0, 0);
    var step := Put([half]);
    assert PartFits(m0.desc[0], m0.data[0], half);
    assert Fits(m0, step.ts);
    var m1 := Apply(m0, step);
    StoreKeeps(m0, step.ts);
    assert m1 == Store(m0, step.ts);
    assert m1.acked == 0 && m1.tsPos == 1 && m1.done == {} && m1.data[0].write == |half.payload|;
    AckedBound(m1, 0);
    var m2 := Apply(m1, Complete(0));
    assert m2.acked == m2.tsPos == 1 && m2.data[0].write == |half.payload| && |m2.data[0].buf| == |bytes|;
    TwoSteps(m0, step, Complete(0));
    RemainderUnique(|half.payload|, |bytes|, 0, |half.payload|);
    DrainedFitsIff(m2, [big]);
    assert !DrainedFits(|m2.data[0].buf|, m2.data[0].write, |[big][0].payload|);
    DrainedRefusesForever(m2, [big], polls);
  }

  lemma TwoSteps(m: Buffer, a: Step, b: Step)
    requires Inv(m)
    ensures Run(m, [a, b]) == Apply(Apply(m, a), b)
  {
    hide Inv, Apply;
    var steps := [a, b];
    assert steps[1..] == [b] && [b][1..] == [];
    assert Run(Apply(m, a), [b]) == Run(Apply(Apply(m, a), b), [b][1..]);
  }

  /** The used size never exceeds the ring, but it can reach it: a part as large as what is
      left fills the ring, and then the strict check on the next query does not hold. */
  lemma FullExactly(d: Ring<Descriptor>, b: Ring<Byte>, part: Part)
    requires d.Valid() && b.Valid() && PartFits(d, b, part)
    ensures |part.payload| <= |b.buf|
    ensures var n, b' := |part.payload|, StoredData(b, part);
            && b'.Valid()
            && (b'.Used() == |b'.buf| <==>
                  n == (if n <= b.ToBorder() then b.Available() else b.Available() - b.ToBorder()))
    ensures var d' := StoredDesc(d, b, part); d'.Valid() && (d'.Used() == |d'.buf| <==> d.Available() == 1)
  {
    hide Written;
    FittingPart(b, part);
  }

  lemma FullReachable(bytes: seq<Byte>, slot: Descriptor)
    requires |bytes| > 0
    ensures var m0 := Initial([[slot]], [bytes]);
            && Inv(m0)
            && var m := Run(m0, [Put([Part(0, bytes, 1)])]);
               && m.data[0].Valid() && m.data[0].Used() == |m.data[0].buf|
               && m.desc[0].Valid() && m.desc[0].Used() == |m.desc[0].buf|
  {
    hide Written;
    InitialInv([[slot]], [bytes]);
    var m0, part := Initial([[slot]], [bytes]), Part(0, bytes, 1);
    var step := Put([part]);
    InvValid(m0);
    RemainderUnique(0, |bytes|, 0, 0);
    assert PartFits(m0.desc[0], m0.data[0], part);
    assert Fits(m0, step.ts);
    FullExactly(m0.desc[0], m0.data[0], part);
    assert [step][1..] == [];
    assert Run(Apply(m0, step), [step][1..]) == Apply(m0, step);
  }

  // ---- the object ------------------------------------------------------------------------

  /** Copies one component behind the border if it would wrap, then its descriptor. */
  method StorePart(d: RingBuffer<Descriptor>, b: RingBuffer<Byte>, part: Part)
    requires d.Valid() && b.Valid() && PartFits(d.State(), b.State(), part)
    modifies d`writeIndex, d.buf, b`writeIndex, b.buf
    ensures |part.payload| <= b.buf.Length
    ensures d.State() == StoredDesc(old(d.State()), old(b.State()), part)
    ensures b.State() == StoredData(old(b.State()), part)
  {
    hide Written;
    FittingPart(b.State(), part);
    b.SkipBufferWrap(|part.payload|);
    var k := Component(part.tsNum, b.writeIndex, part.payload, part.numMicroslices);
    b.Append(part.payload);
    AppendedSingle(d.State(), k.Desc());
    d.Append([k.Desc()]);
  }

  predicate HasRoom(d: RingBuffer<Descriptor>, b: RingBuffer<Byte>, part: Part)
    requires d.Valid() && b.Valid()
    reads d, d.buf, b, b.buf
    ensures HasRoom(d, b, part) == PartFits(d.State(), b.State(), part)
  {
    !(b.SizeAvailableContiguous() < |part.payload| || d.SizeAvailable() < 1)
  }

  /** Gives the space of everything before `acked` back. */
  method GiveBack(d: RingBuffer<Descriptor>, b: RingBuffer<Byte>, acked: nat)
    requires d.buf.Length > 0 && acked > 0
    modifies d`readIndex, b`readIndex
    ensures d.State() == old(d.State()).(read := acked)
    ensures b.State() == old(b.State()).(read := ReadEnd(old(d.State()), acked))
  {
    d.SetReadIndex(acked);
    var last := d.buf[(acked - 1) % d.buf.Length];
    b.SetReadIndex(last.offset + last.size);
  }

  /** The rings and their buffers. */
  ghost function Objects<T>(rings: seq<RingBuffer<T>>): (os: set<object>)
    ensures forall i :: 0 <= i < |rings| ==> rings[i] in os && rings[i].buf in os
  {
    (set i | 0 <= i < |rings| :: rings[i] as object) + (set i | 0 <= i < |rings| :: rings[i].buf as object)
  }

  ghost function States<T>(rings: seq<RingBuffer<T>>): (r: seq<Ring<T>>)
    reads Objects(rings)
    ensures |r| == |rings| && forall i :: 0 <= i < |rings| ==> r[i] == rings[i].State()
  {
    seq(|rings|, i requires 0 <= i < |rings| reads Objects(rings) => rings[i].State())
  }

  ghost function Arrays<T>(bufs: seq<array<T>>): (os: set<object>)
    ensures forall i :: 0 <= i < |bufs| ==> bufs[i] in os
  {
    set i | 0 <= i < |bufs| :: bufs[i] as object
  }

  ghost function Contents<T>(bufs: seq<array<T>>): (r: seq<seq<T>>)
    reads Arrays(bufs)
    ensures |r| == |bufs| && forall i :: 0 <= i < |bufs| ==> r[i] == bufs[i][..]
  {
    seq(|bufs|, i requires 0 <= i < |bufs| reads Arrays(bufs) => bufs[i][..])
  }

  /** Different rings around different buffers. */
  ghost predicate Apart<T>(rings: seq<RingBuffer<T>>)
  {
    forall i, j :: 0 <= i < j < |rings| ==> rings[i] != rings[j] && rings[i].buf != rings[j].buf
  }

  /** Storing one part changes one pair of rings. */
  method StoreAt(desc: seq<RingBuffer<Descriptor>>, data: seq<RingBuffer<Byte>>, i: nat, part: Part)
    requires Apart(desc) && Apart(data) && i < |desc| == |data| && desc[i].Valid() && data[i].Valid()
    requires PartFits(desc[i].State(), data[i].State(), part)
    modifies Objects(desc), Objects(data)
    ensures |part.payload| <= data[i].buf.Length
    ensures States(desc) == old(States(desc))[i := StoredDesc(old(desc[i].State()), old(data[i].State()), part)]
    ensures States(data) == old(States(data))[i := StoredData(old(data[i].State()), part)]
  {
    hide PartFits, StoredDesc, StoredData, Objects, States;
    ghost var ds, bs := States(desc), States(data);
    StorePart(desc[i], data[i], part);
    forall j | 0 <= j < |desc| && j != i
      ensures desc[j].State() == ds[j] && data[j].State() == bs[j]
    {
      assert desc[j] != desc[i] && desc[j].buf != desc[i].buf && data[j] != data[i] && data[j].buf != data[i].buf;
    }
  }

  method GiveBackAt(desc: seq<RingBuffer<Descriptor>>, data: seq<RingBuffer<Byte>>, i: nat, acked: nat)
    requires Apart(desc) && Apart(data) && i < |desc| == |data| && desc[i].buf.Length > 0 && acked > 0
    modifies Objects(desc), Objects(data)
    ensures States(desc) == old(States(desc))[i := old(desc[i].State()).(read := acked)]
    ensures States(data) == old(States(data))[i := old(data[i].State()).(read := ReadEnd(old(desc[i].State()), acked))]
  {
    hide ReadEnd, Objects, States;
    ghost var ds, bs := States(desc), States(data);
    GiveBack(desc[i], data[i], acked);
    forall j | 0 <= j < |desc| && j != i
      ensures desc[j].State() == ds[j] && data[j].State() == bs[j]
    {
      assert desc[j] != desc[i] && data[j] != data[i];
    }
  }

  method MakeRings<T>(bufs: seq<array<T>>) returns (rings: seq<RingBuffer<T>>)
    requires forall i :: 0 <= i < |bufs| ==> bufs[i].Length > 0
    requires forall i, j :: 0 <= i < j < |bufs| ==> bufs[i] != bufs[j]
    ensures Apart(rings) && States(rings) == Started(Contents(bufs))
    ensures forall i :: 0 <= i < |rings| ==> fresh(rings[i])
    ensures |rings| == |bufs| && forall i :: 0 <= i < |rings| ==> rings[i].buf == bufs[i]
  {
    rings := [];
    for k := 0 to |bufs|
      invariant |rings| == k
      invariant forall i :: 0 <= i < k ==> fresh(rings[i]) && rings[i].buf == bufs[i]
      invariant forall i :: 0 <= i < k ==> rings[i].State() == Ring(bufs[i][..], 0, 0)
      invariant forall i, j :: 0 <= i < j < k ==> rings[i] != rings[j]
    {
      var r := new RingBuffer<T>(bufs[k]);
      rings := rings + [r];
    }
  }

  /** The first `i` entries are new, the others as they were. */
  ghost predicate UpTo<T>(now: seq<T>, after: seq<T>, was: seq<T>, i: nat)
  {
    && |now| == |after| == |was|
    && forall j :: 0 <= j < |now| ==> now[j] == if j < i then after[j] else was[j]
  }

  lemma UpToNext<T>(now: seq<T>, after: seq<T>, was: seq<T>, i: nat)
    requires UpTo(now, after, was, i) && i < |now|
    ensures now[i] == was[i] && UpTo(now[i := after[i]], after, was, i + 1)
  {
  }

  lemma UpToAll<T>(now: seq<T>, after: seq<T>, was: seq<T>)
    ensures UpTo(was, after, was, 0) <==> |after| == |was|
    ensures UpTo(now, after, was, |after|) ==> now == after
  {
  }

  /** Copies every component into its rings. */
  method CopyAll(desc: seq<RingBuffer<Descriptor>>, data: seq<RingBuffer<Byte>>, ts: seq<Part>, ghost m: Buffer)
    requires Apart(desc) && Apart(data) && m.desc == States(desc) && m.data == States(data)
    requires AllValid(m) && |ts| == |desc| && Fits(m, ts) && Storable(m, ts)
    modifies Objects(desc), Objects(data)
    ensures States(desc) == Store(m, ts).desc && States(data) == Store(m, ts).data
  {
    hide StoredDesc, StoredData, PartFits, UpTo, Apart, Objects, States;
    ghost var whole := Store(m, ts);
    UpToAll(m.desc, whole.desc, m.desc);
    UpToAll(m.data, whole.data, m.data);
    for i := 0 to |ts|
      invariant UpTo(States(desc), whole.desc, m.desc, i) && UpTo(States(data), whole.data, m.data, i)
    {
      UpToNext(States(desc), whole.desc, m.desc, i);
      UpToNext(States(data), whole.data, m.data, i);
      assert PartFits(m.desc[i], m.data[i], ts[i]);
      StoreAt(desc, data, i, ts[i]);
    }
    UpToAll(States(desc), whole.desc, m.desc);
    UpToAll(States(data), whole.data, m.data);
  }

  method GiveAllBack(desc: seq<RingBuffer<Descriptor>>, data: seq<RingBuffer<Byte>>, acked: nat, ghost m: Buffer)
    requires Apart(desc) && Apart(data) && m.desc == States(desc) && m.data == States(data) && AllValid(m) && acked > 0
    modifies Objects(desc), Objects(data)
    ensures States(desc) == Advanced(m, acked).desc && States(data) == Advanced(m, acked).data
  {
    hide ReadEnd, UpTo, Apart, Objects, States;
    ghost var whole := Advanced(m, acked);
    UpToAll(m.desc, whole.desc, m.desc);
    UpToAll(m.data, whole.data, m.data);
    for i := 0 to |desc|
      invariant UpTo(States(desc), whole.desc, m.desc, i) && UpTo(States(data), whole.data, m.data, i)
    {
      UpToNext(States(desc), whole.desc, m.desc, i);
      UpToNext(States(data), whole.data, m.data, i);
      assert m.desc[i].Valid();
      GiveBackAt(desc, data, i, acked);
    }
    UpToAll(States(desc), whole.desc, m.desc);
    UpToAll(States(data), whole.data, m.data);
  }

  /** Neither the store nor its reorder ring is one of the rings. */
  lemma OtherObjects(desc: seq<RingBuffer<Descriptor>>, data: seq<RingBuffer<Byte>>, s: TimesliceStore, a: array<nat>)
    ensures {s, a} !! Objects(desc) + Objects(data)
  {
  }

  class TimesliceStore {
    const ack: array<nat>
    const desc: seq<RingBuffer<Descriptor>>
    const data: seq<RingBuffer<Byte>>
    var acked: nat
    var tsPos: nat
    ghost var done: set<nat>
    ghost var puts: seq<seq<Part>>
    ghost var sent: seq<seq<Component>>
    ghost var finished: set<nat>

    ghost function State(): (m: Buffer)
      reads this, Objects(desc), Objects(data)
    {
      Buffer(States(desc), States(data), acked, tsPos, done, puts, sent, finished)
    }

    /** The reorder ring has one slot per descriptor. */
    ghost predicate Valid()
      reads this, ack, Objects(desc), Objects(data)
    {
      && Apart(desc) && Apart(data) && {this, ack} !! Objects(desc) + Objects(data)
      && Inv(State()) && Represents(ack[..], acked, done)
      && forall i :: 0 <= i < |desc| ==> desc[i].buf.Length == ack.Length
    }

    constructor (descBuf: seq<array<Descriptor>>, dataBuf: seq<array<Byte>>, descSize: nat)
      requires 0 < |descBuf| == |dataBuf| && descSize > 0
      requires forall i :: 0 <= i < |descBuf| ==> descBuf[i].Length == descSize && dataBuf[i].Length > 0
      requires forall i, j :: 0 <= i < j < |descBuf| ==> descBuf[i] != descBuf[j]
      requires forall i, j :: 0 <= i < j < |dataBuf| ==> dataBuf[i] != dataBuf[j]
      ensures Valid() && fresh(ack) && State() == Initial(Contents(descBuf), Contents(dataBuf))
    {
      hide Inv, Apart, Represents;
      var a := new nat[descSize](_ => 0);
      var ds := MakeRings(descBuf);
      var bs := MakeRings(dataBuf);
      ack, desc, data := a, ds, bs;
      acked, tsPos, done, finished := 0, 0, {}, {};
      puts, sent := [], seq(|descBuf|, _ => []);
      new;
      Starts(Contents(descBuf), Contents(dataBuf));
    }

    lemma Starts(descBuf: seq<seq<Descriptor>>, dataBuf: seq<seq<Byte>>)
      requires 0 < |descBuf| == |dataBuf| && Apart(desc) && Apart(data) && ack.Length > 0
      requires forall i :: 0 <= i < |descBuf| ==> |descBuf[i]| == ack.Length && |dataBuf[i]| > 0
      requires States(desc) == Started(descBuf) && States(data) == Started(dataBuf)
      requires acked == 0 && tsPos == 0 && done == {} && finished == {} && puts == [] && sent == seq(|descBuf|, _ => [])
      requires forall i :: 0 <= i < ack.Length ==> ack[i] == 0
      ensures Valid() && State() == Initial(descBuf, dataBuf)
    {
      hide Inv, Objects, Apart;
      OtherObjects(desc, data, this, ack);
      InitialInv(descBuf, dataBuf);
      ClearedRepresents(ack[..], 0);
    }

    method HandleTimesliceCompletions(cs: seq<nat>)
      requires Valid() && Honest(State(), cs)
      modifies this, ack, Objects(desc), Objects(data)
      ensures Valid() && State() == CompleteAll(old(State()), cs)
    {
      hide Inv, Represents, CompleteOne;
      ghost var m0 := State();
      for k := 0 to |cs|
        invariant Valid() && Honest(State(), cs[k..])
        invariant CompleteAll(State(), cs[k..]) == CompleteAll(m0, cs)
      {
        ghost var rest := cs[k..];
        assert rest[0] == cs[k] && rest[1..] == cs[k + 1..];
        CompletedOne(cs[k]);
      }
    }

    method CompletedOne(p: nat)
      requires Valid() && Open(State(), p)
      modifies this, ack, Objects(desc), Objects(data)
      ensures Valid() && old(AllValid(State())) && State() == CompleteOne(old(State()), p)
    {
      hide Inv, Represents, FirstOpen, CompleteDone, PairInv, Objects, States, Apart, ReadEnd;
      ghost var m := State();
      InvValid(m);
      CompleteKeeps(m, p);
      WindowFits(m, p, ack.Length);
      AckedBound(m, p);
      var next := Reorder.Complete(ack, acked, p, done);
      assert State() == m;
      if p == acked {
        GiveAllBack(desc, data, next, m);
        acked := next;
      }
      done, finished := CompleteDone(m.acked, m.done, p), m.finished + {p};
      assert State() == CompleteOne(m, p);
    }

    method TimesliceFitsInBuffer(ts: seq<Part>) returns (ok: bool)
      requires Valid() && |ts| == |desc|
      ensures Valid() && State() == old(State())
      ensures AllValid(State()) && ok == Fits(State(), ts)
    {
      hide Inv, Represents, Apart, Objects, States, PartFits;
      ghost var m := State();
      InvValid(m);
      for i := 0 to |ts|
        invariant forall j :: 0 <= j < i ==> PartFits(m.desc[j], m.data[j], ts[j])
      {
        assert m.desc[i].Valid() && m.data[i].Valid();
        if !HasRoom(desc[i], data[i], ts[i]) {
          assert !PartFits(m.desc[i], m.data[i], ts[i]);
          return false;
        }
      }
      return true;
    }

    /** Polls until the timeslice fits, then copies every component and counts the timeslice. */
    method Put(ts: seq<Part>, polls: seq<seq<nat>>) returns (o: Outcome)
      requires Valid() && HonestPolls(State(), polls)
      modifies this, ack, Objects(desc), Objects(data)
      ensures Valid()
      ensures |ts| != |desc| ==> o == WrongCount && State() == old(State())
      ensures |ts| == |desc| ==> (State(), o) == PutOutcome(old(State()), ts, polls)
      ensures puts == old(puts) + if o == Stored then [ts] else []
    {
      hide Inv, Represents, Honest, CompleteAll, Fits;
      if |ts| != |desc| {
        return WrongCount;
      }
      ghost var m0 := State();
      for k := 0 to |polls|
        invariant Valid() && HonestPolls(State(), polls[k..])
        invariant PutOutcome(State(), ts, polls[k..]) == PutOutcome(m0, ts, polls)
      {
        ghost var rest := polls[k..];
        assert rest[0] == polls[k] && rest[1..] == polls[k + 1..];
        var ok := TryPut(ts, polls[k]);
        if ok {
          return Stored;
        }
      }
      return Waiting;
    }

    /** One poll, and the timeslice if it fits now. */
    method TryPut(ts: seq<Part>, cs: seq<nat>) returns (ok: bool)
      requires Valid() && Honest(State(), cs) && |ts| == |desc|
      modifies this, ack, Objects(desc), Objects(data)
      ensures var m1 := CompleteAll(old(State()), cs);
              && Valid() && |m1.desc| == |ts| && AllValid(m1) && ok == Fits(m1, ts)
              && (ok ==> Storable(m1, ts)) && State() == if ok then Store(m1, ts) else m1
    {
      hide Inv, Represents, Honest, CompleteAll, Fits, Apart, Store, Objects, States, Storable;
      CompleteAllShape(State(), cs);
      HandleTimesliceCompletions(cs);
      ok := TimesliceFitsInBuffer(ts);
      if ok {
        StoreAll(ts);
      }
    }

    method StoreAll(ts: seq<Part>)
      requires Valid() && |ts| == |desc| && AllValid(State()) && Fits(State(), ts)
      modifies this, Objects(desc), Objects(data)
      ensures Valid() && old(Storable(State(), ts)) && State() == Store(old(State()), ts)
    {
      hide Inv, Represents, PairInv, Written, Objects, States, Apart;
      ghost var m := State();
      StoreKeeps(m, ts);
      CopyAll(desc, data, ts, m);
      puts, sent := puts + [ts], Store(m, ts).sent;
      tsPos := tsPos + 1;
      assert State() == Store(m, ts);
    }

    method Empty() returns (b: bool)
      requires Valid()
      ensures b <==> forall p: nat :: p < tsPos ==> p in finished
    {
      EmptyExactly(State(), []);
      b := acked == tsPos;
    }
  }

  /** Open items lie within one turn of the reorder ring. */
  lemma WindowFits(m: Buffer, p: nat, size: nat)
    requires Inv(m) && Open(m, p) && forall i :: 0 <= i < |m.desc| ==> |m.desc[i].buf| == size
    ensures p < m.acked + size
  {
    assert PairInv(m.desc[0], m.data[0], m.sent[0], m.acked, m.tsPos);
  }
}
