/** What every step keeps of the flags that decide how a connection ends, and of the place where
    an input writes. */
module FlagInvariants {
  import opened Wire
  import opened InputChannelConnection
  import opened Connection
  import opened ComputeNode
  import opened InputChannelSender
  import opened System
  import opened SystemProofs
  import opened Cycle
  import opened Continuation
  import opened Room
  import TB = TimesliceBuilder

  // ---- flags ---------------------------------------------------------------------------------

  /** The flags of a connection follow those of its input; an input that finishes without
      abort has sent everything, and none finishes before its writes are seen to complete. */
  ghost predicate FlagsOf(cfg: Config, inp: Input, snd: SenderEnd)
  {
    && snd.finalizing == inp.finalizing && (snd.aborting ==> inp.abort)
    && (snd.finalizing && !snd.aborting ==> inp.timeslice == cfg.maxTimeslices)
    && (snd.finalizing ==> snd.pending == 0) && snd.pending <= cfg.maxPending
  }

  ghost predicate Flags(cfg: Config, s: Sys)
  {
    && (forall i :: 0 <= i < |s.inputs| ==> s.inputs[i].timeslice <= cfg.maxTimeslices)
    && (forall i: nat, c: nat :: Inside(s, i, c) ==> FlagsOf(cfg, s.inputs[i], s.nodes[c].conns[i].snd))
    && (forall i: nat, c: nat :: Inside(s, i, c) ==> PlaceOf(cfg, i, c, s.nodes[c].conns[i]))
    && AbortsAlike(s)
  }

  /** An input that finishes aborts on all its connections or on none. */
  ghost predicate AbortsAlike(s: Sys)
  {
    forall i: nat, c: nat, d: nat :: Inside(s, i, c) && Inside(s, i, d) ==>
      s.nodes[c].conns[i].snd.aborting == s.nodes[d].conns[i].snd.aborting
  }

  ghost predicate PlaceOf(cfg: Config, i: nat, c: nat, conn: Conn) { InPlace(cfg, i, c, conn.snd.cnWp, |conn.sent|) }

  /** A step that neither sends nor finishes keeps all flags. */
  ghost predicate SameFlags(s: Sys, s': Sys)
  {
    && |s'.inputs| == |s.inputs| && |s'.nodes| == |s.nodes|
    && (forall i :: 0 <= i < |s.inputs| ==> SameInputFlags(s.inputs[i], s'.inputs[i]))
    && (forall c :: 0 <= c < |s.nodes| ==> SameNodeFlags(s.nodes[c], s'.nodes[c]))
  }

  ghost predicate SameInputFlags(a: Input, b: Input)
  {
    b.timeslice == a.timeslice && b.finalizing == a.finalizing && (a.abort ==> b.abort)
  }

  ghost predicate SameNodeFlags(a: Node, b: Node)
  {
    && |b.conns| == |a.conns| && |b.core.ends| == |a.core.ends|
    && forall i :: 0 <= i < |a.conns| ==> SameConnFlags(a.conns[i], b.conns[i])
  }

  ghost predicate SameConnFlags(a: Conn, b: Conn)
  {
    && b.snd.finalizing == a.snd.finalizing && b.snd.aborting == a.snd.aborting
    && b.snd.cnWp == a.snd.cnWp && b.snd.pending <= a.snd.pending && b.sent == a.sent
  }

  lemma SameFlagsKeep(cfg: Config, s: Sys, s': Sys)
    requires Flags(cfg, s) && SameFlags(s, s')
    ensures Flags(cfg, s')
  {
    hide InPlace;
    AlikeKeep(s, s');
    forall i: nat, c: nat | Inside(s', i, c)
      ensures FlagsOf(cfg, s'.inputs[i], s'.nodes[c].conns[i].snd) && PlaceOf(cfg, i, c, s'.nodes[c].conns[i])
    {
      assert SameNodeFlags(s.nodes[c], s'.nodes[c]) && SameInputFlags(s.inputs[i], s'.inputs[i]);
      assert Inside(s, i, c);
      assert SameConnFlags(s.nodes[c].conns[i], s'.nodes[c].conns[i]);
    }
  }

  lemma AlikeKeep(s: Sys, s': Sys)
    requires AbortsAlike(s) && |s'.inputs| == |s.inputs| && |s'.nodes| == |s.nodes|
    requires forall i: nat, c: nat :: Inside(s', i, c) ==>
               Inside(s, i, c) && s'.nodes[c].conns[i].snd.aborting == s.nodes[c].conns[i].snd.aborting
    ensures AbortsAlike(s')
  {
  }

  lemma ConnStepFlags(c: Conn)
    ensures SameConnFlags(c, Sync(c)) && SameConnFlags(c, Land(c))
    ensures SameConnFlags(c, ReceiveReply(c)) && SameConnFlags(c, PollWrite(c))
  {
  }

  lemma NodeStepFlags(n: Node, i: nat, p: nat)
    ensures SameNodeFlags(n, HandleStatus(n, i)) && SameNodeFlags(n, HandleCompletion(n, p))
    ensures SameNodeFlags(n, HandleFinalSent(n, i)) && SameNodeFlags(n, HandleAbortRequest(n))
    ensures SameNodeFlags(n, HandleDisconnect(n, i))
  {
    hide TB.MinElement, TB.ItemsFor, TB.Positions;
  }

  lemma ConnChangeFlags(s: Sys, s': Sys, i: nat, c: nat, conn: Conn)
    requires Inside(s, i, c) && s'.nodes == s.nodes[c := WithConn(s.nodes[c], i, conn)]
    requires SameConnFlags(s.nodes[c].conns[i], conn)
    requires |s'.inputs| == |s.inputs|
    requires forall j :: 0 <= j < |s.inputs| ==> SameInputFlags(s.inputs[j], s'.inputs[j])
    ensures SameFlags(s, s')
  {
  }

  lemma FlagsKeep(cfg: Config, s: Sys, step: Step)
    requires SysInv(cfg, s) && Flags(cfg, s)
    ensures Flags(cfg, Apply(cfg, s, step))
  {
    hide SysInv, Flags, InputInv, NodeInv, ConnInv, Linked, SameFlags, Sized;
    InvSized(cfg, s);
    InsideSizes(cfg, s);
    match step
    case SendNext(i) => SendFlags(cfg, s, i);
    case Finish(i) => FinishFlags(cfg, s, i);
    case _ =>
      OtherFlags(cfg, s, step);
      SameFlagsKeep(cfg, s, Apply(cfg, s, step));
  }

  lemma OtherFlags(cfg: Config, s: Sys, step: Step)
    requires cfg.Valid() && Sized(cfg, s) && SysInv(cfg, s)
    requires !step.SendNext? && !step.Finish?
    ensures SameFlags(s, Apply(cfg, s, step))
  {
    hide SysInv, InputInv, NodeInv, ConnInv, Linked, SameFlags, ApplyNode, StepWriteDone, StepInputStatus, Sync, Land,
         Produce, SyncSource;
    InsideSizes(cfg, s);
    NoFlags(s);
    match step
    case Deliver(i) => SourceFlags(cfg, s, i);
    case SyncRead(i) => SourceFlags(cfg, s, i);
    case SyncPointers(i, c) => if i < |s.inputs| && c < |s.nodes| { PlainFlags(s, i, c); }
    case Arrive(i, c) => if i < |s.inputs| && c < |s.nodes| { PlainFlags(s, i, c); }
    case InputStatusStep(i, c) => if i < |s.inputs| && c < |s.nodes| { StatusFlags(s, i, c); }
    case WriteDone(i, c) => if i < |s.inputs| && c < |s.nodes| { WriteFlags(cfg, s, i, c); }
    case _ => NodeFlags(cfg, s, step);
  }

  lemma NoFlags(s: Sys)
    ensures SameFlags(s, s)
  {
  }

  lemma SourceFlags(cfg: Config, s: Sys, i: nat)
    requires cfg.Valid() && Sized(cfg, s)
    ensures i < |s.inputs| ==> SameFlags(s, SetInput(cfg, s, i, Produce(s.inputs[i], cfg.sources[i])))
    ensures i < |s.inputs| ==> SameFlags(s, SetInput(cfg, s, i, SyncSource(s.inputs[i])))
  {
  }

  lemma PlainFlags(s: Sys, i: nat, c: nat)
    requires Inside(s, i, c)
    ensures SameFlags(s, Set(s, i, c, Sync(s.nodes[c].conns[i])))
    ensures SameFlags(s, Set(s, i, c, Land(s.nodes[c].conns[i])))
  {
    hide Sync, Land, SameFlags;
    ConnStepFlags(s.nodes[c].conns[i]);
    ConnChangeFlags(s, Set(s, i, c, Sync(s.nodes[c].conns[i])), i, c, Sync(s.nodes[c].conns[i]));
    ConnChangeFlags(s, Set(s, i, c, Land(s.nodes[c].conns[i])), i, c, Land(s.nodes[c].conns[i]));
  }

  lemma StatusFlags(s: Sys, i: nat, c: nat)
    requires Inside(s, i, c)
    ensures SameFlags(s, StepInputStatus(s, i, c))
  {
    hide ReceiveReply, SameFlags;
    NoFlags(s);
    ConnStepFlags(s.nodes[c].conns[i]);
    if |s.nodes[c].conns[i].toInput| > 0 {
      ConnChangeFlags(s, StepInputStatus(s, i, c), i, c, ReceiveReply(s.nodes[c].conns[i]));
    }
  }

  lemma WriteFlags(cfg: Config, s: Sys, i: nat, c: nat)
    requires cfg.Valid() && Sized(cfg, s) && Inside(s, i, c)
    ensures SameFlags(s, StepWriteDone(cfg, s, i, c))
  {
    hide PollWrite, SameFlags, WriteCompleted;
    NoFlags(s);
    var conn := s.nodes[c].conns[i];
    ConnStepFlags(conn);
    if conn.polled < conn.landedDesc && conn.polled < |conn.sent| && conn.snd.pending > 0
       && s.inputs[i].ackedDesc >= cfg.sources[i].startDesc {
      WriteCourse(s.inputs[i], cfg.sources[i], cfg.sl, conn.sent[conn.polled].tsNum);
      ConnChangeFlags(s, StepWriteDone(cfg, s, i, c), i, c, PollWrite(conn));
    }
  }

  lemma NodeFlags(cfg: Config, s: Sys, step: Step)
    requires cfg.Valid() && Sized(cfg, s)
    ensures SameFlags(s, ApplyNode(cfg, s, step))
  {
    hide HandleStatus, HandleCompletion, HandleFinalSent, HandleAbortRequest, HandleDisconnect, SameFlags,
         SameNodeFlags;
    NoFlags(s);
    var s' := ApplyNode(cfg, s, step);
    match step
    case NodeStatusStep(i, c) => if c < |s.nodes| { NodeStepFlags(s.nodes[c], i, 0); SetNodeFlags(s, s', c); }
    case ItemDone(c, p) => if c < |s.nodes| { NodeStepFlags(s.nodes[c], 0, p); SetNodeFlags(s, s', c); }
    case FinalSent(i, c) => if c < |s.nodes| { NodeStepFlags(s.nodes[c], i, 0); SetNodeFlags(s, s', c); }
    case AskAbort(c) => if c < |s.nodes| { NodeStepFlags(s.nodes[c], 0, 0); SetNodeFlags(s, s', c); }
    case Disconnect(i, c) => if c < |s.nodes| { NodeStepFlags(s.nodes[c], i, 0); SetNodeFlags(s, s', c); }
    case _ =>
  }

  lemma SetNodeFlags(s: Sys, s': Sys, c: nat)
    requires c < |s.nodes| == |s'.nodes| && s'.inputs == s.inputs && s'.nodes == s.nodes[c := s'.nodes[c]]
    requires SameNodeFlags(s.nodes[c], s'.nodes[c])
    ensures SameFlags(s, s')
  {
  }

  /** What sending does to the flags and the write pointer. */
  lemma SendConnFlags(c: Conn, r: Rings, maxPending: nat, payload: seq<Byte>, ts: nat, num: nat)
    ensures var c' := Send(c, r, maxPending, payload, ts, num);
            && c'.snd.finalizing == c.snd.finalizing && c'.snd.aborting == c.snd.aborting
            && (|c'.sent| > |c.sent| ==>
                  && |c'.sent| == |c.sent| + 1 && !c.snd.finalizing && c'.snd.pending <= maxPending
                  && c'.snd.cnWp.data == c.snd.cnWp.data + |payload| + SkipFrom(c.snd.cnWp.data, r, |payload|))
  {
    hide CheckForBufferSpace;
  }

  lemma SendFlags(cfg: Config, s: Sys, i: nat)
    requires cfg.Valid() && Sized(cfg, s) && SysInv(cfg, s) && Flags(cfg, s)
    ensures Flags(cfg, Apply(cfg, s, SendNext(i)))
  {
    hide SysInv, InputInv, NodeInv, ConnInv, Linked, Gather, Send, Available, InPlace;
    if i < |s.inputs| {
      InsideSizes(cfg, s);
      InvInput(cfg, s, i);
      var inp, src := s.inputs[i], cfg.sources[i];
      var c := TargetNode(cfg, inp.timeslice);
      var conn := s.nodes[c].conns[i];
      var payload := Gather(src, cfg.sl, inp.written, inp.timeslice);
      var conn' := Send(conn, cfg.rings[c], cfg.maxPending, payload, inp.timeslice, cfg.sl.Length());
      SendConnFlags(conn, cfg.rings[c], cfg.maxPending, payload, inp.timeslice, cfg.sl.Length());
      var s' := Apply(cfg, s, SendNext(i));
      if s' != s {
        assert Inside(s, i, c) && PlaceOf(cfg, i, c, conn);
        SentInPlace(cfg, s, i, c, conn');
      }
      forall j: nat, d: nat | Inside(s', j, d)
        ensures FlagsOf(cfg, s'.inputs[j], s'.nodes[d].conns[j].snd) && PlaceOf(cfg, j, d, s'.nodes[d].conns[j])
      {
        assert Inside(s, j, d);
        assert FlagsOf(cfg, s.inputs[j], s.nodes[d].conns[j].snd) && PlaceOf(cfg, j, d, s.nodes[d].conns[j]);
      }
    }
  }

  /** The next component goes where the sizes put it. */
  lemma SentInPlace(cfg: Config, s: Sys, i: nat, c: nat, conn': Conn)
    requires SysInv(cfg, s) && Inside(s, i, c) && i < |cfg.sources| && cfg.Valid() && |s.nodes| == |cfg.rings|
    requires c == TargetNode(cfg, s.inputs[i].timeslice) && Available(s.inputs[i], cfg.sources[i], cfg.sl)
    requires PlaceOf(cfg, i, c, s.nodes[c].conns[i])
    requires var conn, inp := s.nodes[c].conns[i], s.inputs[i];
             var n := |Gather(cfg.sources[i], cfg.sl, inp.written, inp.timeslice)|;
             && |conn'.sent| == |conn.sent| + 1
             && conn'.snd.cnWp.data == conn.snd.cnWp.data + n + SkipFrom(conn.snd.cnWp.data, cfg.rings[c], n)
    ensures PlaceOf(cfg, i, c, conn')
  {
    hide SysInv, InputInv, NodeInv, ConnInv, Linked, Gather, Payload, Available, SkipFrom, First, TsAt;
    InvInput(cfg, s, i);
    AvailableInRings(s.inputs[i], cfg.sources[i], cfg.sl);
    GatherIsPayload(cfg.sources[i], cfg.sl, s.inputs[i].written, s.inputs[i].timeslice);
    NextTs(cfg, s, i, c);
  }

  /** The next position of its target is that of the next timeslice. */
  lemma NextTs(cfg: Config, s: Sys, i: nat, c: nat)
    requires SysInv(cfg, s) && Inside(s, i, c) && cfg.Valid() && |s.nodes| == |cfg.rings|
    requires c == TargetNode(cfg, s.inputs[i].timeslice)
    ensures TsAt(|s.nodes[c].conns[i].sent|, c, |cfg.rings|) == s.inputs[i].timeslice
  {
    hide InputInv, NodeInv, ConnInv;
    InsideSizes(cfg, s);
    assert Linked(s.inputs[i], s.nodes[c].conns[i], cfg.sources[i], cfg.sl, c, |s.nodes|);
    hide Linked;
    NextPosition(s.inputs[i], s.nodes[c].conns[i], cfg.sources[i], cfg.sl, |s.nodes|);
  }

  /** What finishing does to the flags of a connection. */
  lemma FinalizeFlags(c: Conn, abort: bool)
    ensures var c' := FinalizeConn(c, abort);
            && c'.snd.finalizing && c'.snd.aborting == (if c.snd.finalizing then c.snd.aborting else abort)
            && c'.snd.cnWp == c.snd.cnWp && c'.snd.pending == c.snd.pending && c'.sent == c.sent
  {
  }

  /** An input that may finish has seen all its writes complete. */
  lemma NothingLeft(cfg: Config, s: Sys, i: nat, c: nat)
    requires SysInv(cfg, s) && Inside(s, i, c) && i < |cfg.sources| && MayFinish(cfg, s.inputs[i], i)
    ensures s.nodes[c].conns[i].snd.pending == 0
  {
    hide NodeInv, ConnInv, InputInv, Linked, First;
    InsideSizes(cfg, s);
    InvInput(cfg, s, i);
    assert Linked(s.inputs[i], s.nodes[c].conns[i], cfg.sources[i], cfg.sl, c, |s.nodes|);
    hide SysInv;
    PolledBound(cfg, s, i, c);
    AllPolledWhenAcked(s.inputs[i], s.nodes[c].conns[i], cfg.sources[i], cfg.sl, c, |s.nodes|);
  }

  lemma AllPolledWhenAcked(inp: Input, conn: Conn, src: Source, sl: Slicing, c: nat, n: nat)
    requires InputInv(inp, src, sl) && sl.size > 0 && Linked(inp, conn, src, sl, c, n)
    requires inp.ackedDesc >= First(src, sl, inp.timeslice)
    ensures conn.polled == |conn.sent|
  {
    hide TsAt, Carries, TsOf;
    AckedFirst(inp, src, sl);
    FirstMonotone(src, sl, AckedTs(inp, src, sl), inp.timeslice);
    AckedAll(src, sl, AckedTs(inp, src, sl), inp.timeslice);
    assert conn.polled < |conn.sent| <==> TsAt(conn.polled, c, n) < inp.timeslice;
  }

  lemma AckedAll(src: Source, sl: Slicing, a: nat, t: nat)
    requires sl.size > 0 && First(src, sl, a) >= First(src, sl, t)
    ensures a >= t
  {
    if a < t {
      FirstMonotone(src, sl, a + 1, t);
    }
  }

  lemma FinishFlags(cfg: Config, s: Sys, i: nat)
    requires cfg.Valid() && Sized(cfg, s) && SysInv(cfg, s) && Flags(cfg, s)
    ensures Flags(cfg, Apply(cfg, s, Finish(i)))
  {
    hide SysInv, First, InPlace, FinalizeConn, InputInv, NodeInv, ConnInv, Linked;
    InsideSizes(cfg, s);
    var s' := Apply(cfg, s, Finish(i));
    if s' != s {
      forall j: nat, c: nat | Inside(s', j, c)
        ensures Inside(s, j, c) && FlagsOf(cfg, s'.inputs[j], s'.nodes[c].conns[j].snd)
        ensures PlaceOf(cfg, j, c, s'.nodes[c].conns[j])
        ensures s'.nodes[c].conns[j].snd.aborting
                == if j == i then s.inputs[i].abort else s.nodes[c].conns[j].snd.aborting
      {
        assert Inside(s, j, c);
        assert FlagsOf(cfg, s.inputs[j], s.nodes[c].conns[j].snd) && PlaceOf(cfg, j, c, s.nodes[c].conns[j]);
        FinalizeFlags(s.nodes[c].conns[i], s.inputs[i].abort);
        NothingLeft(cfg, s, i, c);
      }
    }
  }

  // ---- nobody asks for an abort ------------------------------------------------------------------

  ghost predicate AskOf(n: Node, i: nat)
    requires i < |n.conns| == |n.core.ends|
  {
    Asking(Pair(n.conns[i], n.core.ends[i], false))
  }

  /** No connection of the node asks that did not ask before. */
  ghost predicate NoNewAsk(a: Node, b: Node)
  {
    && |b.conns| == |a.conns| && |b.core.ends| == |a.core.ends|
    && forall i :: 0 <= i < |a.conns| == |a.core.ends| && AskOf(b, i) ==> AskOf(a, i)
  }

  lemma UnaskedFrom(s: Sys, s': Sys)
    requires Unasked(s) && |s'.inputs| == |s.inputs| && |s'.nodes| == |s.nodes|
    requires forall c :: 0 <= c < |s.nodes| ==> NoNewAsk(s.nodes[c], s'.nodes[c])
    requires forall i :: 0 <= i < |s.inputs| && s'.inputs[i].abort ==> s.inputs[i].abort
    ensures Unasked(s')
  {
    forall i: nat, c: nat | Inside(s', i, c)
      ensures !PairOf(s', i, c).asked && !Asking(PairOf(s', i, c))
    {
      assert NoNewAsk(s.nodes[c], s'.nodes[c]);
      assert Inside(s, i, c) && !PairOf(s, i, c).asked && !Asking(PairOf(s, i, c));
      assert AskOf(s'.nodes[c], i) ==> AskOf(s.nodes[c], i);
    }
  }

  lemma NodeStepAsks(n: Node, i: nat, p: nat)
    requires |n.conns| == |n.core.ends|
    ensures NoNewAsk(n, HandleStatus(n, i)) && NoNewAsk(n, HandleCompletion(n, p))
    ensures NoNewAsk(n, HandleFinalSent(n, i)) && NoNewAsk(n, HandleDisconnect(n, i))
  {
    hide TB.MinElement, TB.ItemsFor, TB.Positions;
  }

  lemma ConnAsks(n: Node, i: nat, c: Conn)
    requires i < |n.conns| == |n.core.ends|
    requires forall k :: 0 <= k < |c.toInput| ==> c.toInput[k] in n.conns[i].toInput
    ensures NoNewAsk(n, WithConn(n, i, c))
  {
    var n' := WithConn(n, i, c);
    forall j | 0 <= j < |n.conns| && AskOf(n', j)
      ensures AskOf(n, j)
    {
      if j == i && !n.core.ends[i].sendMsg.requestAbort {
        var k :| 0 <= k < |c.toInput| && c.toInput[k].requestAbort;
        assert c.toInput[k] in n.conns[i].toInput;
      }
    }
  }

  lemma UnaskedKeep(cfg: Config, s: Sys, step: Step)
    requires SysInv(cfg, s) && Unasked(s) && !step.AskAbort?
    ensures Unasked(Apply(cfg, s, step))
  {
    hide SysInv, Unasked, InputInv, NodeInv, ConnInv, Linked, ApplyNode, StepSend, StepWriteDone, StepInputStatus, Sync,
         Land, FinishAll, Produce, SyncSource;
    InvSized(cfg, s);
    InsideSizes(cfg, s);
    match step
    case Deliver(i) => SourceAsks(cfg, s, i);
    case SyncRead(i) => SourceAsks(cfg, s, i);
    case SendNext(i) => if i < |s.inputs| { SendAsks(cfg, s, i); }
    case SyncPointers(i, c) => if i < |s.inputs| && c < |s.nodes| { PlainAsks(s, i, c); }
    case Arrive(i, c) => if i < |s.inputs| && c < |s.nodes| { PlainAsks(s, i, c); }
    case InputStatusStep(i, c) => if i < |s.inputs| && c < |s.nodes| { StatusAsks(s, i, c); }
    case WriteDone(i, c) => if i < |s.inputs| && c < |s.nodes| { WriteAsks(cfg, s, i, c); }
    case Finish(i) => if i < |s.inputs| { FinishAsks(cfg, s, i); }
    case _ => NodeAsks(cfg, s, step);
  }

  lemma SourceAsks(cfg: Config, s: Sys, i: nat)
    requires cfg.Valid() && Sized(cfg, s) && Unasked(s)
    ensures i < |s.inputs| ==> Unasked(SetInput(cfg, s, i, Produce(s.inputs[i], cfg.sources[i])))
    ensures i < |s.inputs| ==> Unasked(SetInput(cfg, s, i, SyncSource(s.inputs[i])))
  {
    hide Unasked, Asking;
    if i < |s.inputs| {
      UnaskedFrom(s, SetInput(cfg, s, i, Produce(s.inputs[i], cfg.sources[i])));
      UnaskedFrom(s, SetInput(cfg, s, i, SyncSource(s.inputs[i])));
    }
  }

  /** Changing one connection without new replies in flight. */
  lemma SetAsks(s: Sys, s': Sys, i: nat, c: nat, conn: Conn)
    requires Unasked(s) && Inside(s, i, c) && s'.nodes == s.nodes[c := WithConn(s.nodes[c], i, conn)]
    requires |s'.inputs| == |s.inputs| && forall j :: 0 <= j < |s.inputs| && s'.inputs[j].abort ==> s.inputs[j].abort
    requires forall k :: 0 <= k < |conn.toInput| ==> conn.toInput[k] in s.nodes[c].conns[i].toInput
    ensures Unasked(s')
  {
    hide Unasked, Asking;
    ConnAsks(s.nodes[c], i, conn);
    UnaskedFrom(s, s');
  }

  lemma PlainAsks(s: Sys, i: nat, c: nat)
    requires Inside(s, i, c) && Unasked(s)
    ensures Unasked(Set(s, i, c, Sync(s.nodes[c].conns[i]))) && Unasked(Set(s, i, c, Land(s.nodes[c].conns[i])))
  {
    hide Unasked;
    SetAsks(s, Set(s, i, c, Sync(s.nodes[c].conns[i])), i, c, Sync(s.nodes[c].conns[i]));
    SetAsks(s, Set(s, i, c, Land(s.nodes[c].conns[i])), i, c, Land(s.nodes[c].conns[i]));
  }

  lemma StatusAsks(s: Sys, i: nat, c: nat)
    requires Inside(s, i, c) && Unasked(s)
    ensures Unasked(StepInputStatus(s, i, c))
  {
    var conn := s.nodes[c].conns[i];
    assert !PairOf(s, i, c).asked && !Asking(PairOf(s, i, c));
    hide Unasked;
    if |conn.toInput| > 0 {
      assert ReceiveReply(conn).toInput == conn.toInput[1..];
      SetAsks(s, StepInputStatus(s, i, c), i, c, ReceiveReply(conn));
    }
  }

  lemma WriteAsks(cfg: Config, s: Sys, i: nat, c: nat)
    requires cfg.Valid() && Sized(cfg, s) && Inside(s, i, c) && Unasked(s)
    ensures Unasked(StepWriteDone(cfg, s, i, c))
  {
    hide Unasked, WriteCompleted;
    var conn := s.nodes[c].conns[i];
    if conn.polled < conn.landedDesc && conn.polled < |conn.sent| && conn.snd.pending > 0
       && s.inputs[i].ackedDesc >= cfg.sources[i].startDesc {
      WriteCourse(s.inputs[i], cfg.sources[i], cfg.sl, conn.sent[conn.polled].tsNum);
      SetAsks(s, StepWriteDone(cfg, s, i, c), i, c, PollWrite(conn));
    }
  }

  lemma SendAsks(cfg: Config, s: Sys, i: nat)
    requires cfg.Valid() && Sized(cfg, s) && i < |s.inputs| && Unasked(s)
    ensures Unasked(StepSend(cfg, s, i))
  {
    hide Unasked, Gather, CanSend, Available;
    var inp := s.inputs[i];
    var c := TargetNode(cfg, inp.timeslice);
    assert Inside(s, i, c);
    var payload := Gather(cfg.sources[i], cfg.sl, inp.written, inp.timeslice);
    var conn' := Send(s.nodes[c].conns[i], cfg.rings[c], cfg.maxPending, payload, inp.timeslice, cfg.sl.Length());
    if StepSend(cfg, s, i) != s {
      SetAsks(s, StepSend(cfg, s, i), i, c, conn');
    }
  }

  lemma FinishAsks(cfg: Config, s: Sys, i: nat)
    requires cfg.Valid() && Sized(cfg, s) && i < |s.inputs| && Unasked(s)
    ensures Unasked(FinishAll(SetInput(cfg, s, i, s.inputs[i].(finalizing := true)), i, s.inputs[i].abort))
  {
    hide Unasked, Asking;
    var s1 := SetInput(cfg, s, i, s.inputs[i].(finalizing := true));
    var s' := FinishAll(s1, i, s.inputs[i].abort);
    forall c | 0 <= c < |s.nodes|
      ensures NoNewAsk(s.nodes[c], s'.nodes[c])
    {
      ConnAsks(s.nodes[c], i, FinalizeConn(s.nodes[c].conns[i], s.inputs[i].abort));
    }
    UnaskedFrom(s, s');
  }

  lemma NodeAsks(cfg: Config, s: Sys, step: Step)
    requires cfg.Valid() && Sized(cfg, s) && Unasked(s) && !step.AskAbort?
    ensures Unasked(ApplyNode(cfg, s, step))
  {
    hide Unasked, HandleStatus, HandleCompletion, HandleFinalSent, HandleDisconnect, Asking;
    var s' := ApplyNode(cfg, s, step);
    match step
    case NodeStatusStep(i, c) => if c < |s.nodes| { NodeStepAsks(s.nodes[c], i, 0); UnaskedFrom(s, s'); }
    case ItemDone(c, p) => if c < |s.nodes| { NodeStepAsks(s.nodes[c], 0, p); UnaskedFrom(s, s'); }
    case FinalSent(i, c) => if c < |s.nodes| { NodeStepAsks(s.nodes[c], i, 0); UnaskedFrom(s, s'); }
    case Disconnect(i, c) => if c < |s.nodes| { NodeStepAsks(s.nodes[c], i, 0); UnaskedFrom(s, s'); }
    case _ =>
  }

  // ---- along continuations -----------------------------------------------------------------------

  lemma {:induction false} RunKeepsAll(cfg: Config, s: Sys, steps: seq<Step>)
    requires SysInv(cfg, s) && Flags(cfg, s)
    ensures cfg.Valid() && Sized(cfg, s)
    ensures var s' := Run(cfg, s, steps);
            SysInv(cfg, s') && Flags(cfg, s') && (Unasked(s) && Calm(steps) ==> Unasked(s'))
    decreases |steps|
  {
    hide SysInv, Flags, Unasked, Apply;
    InvSized(cfg, s);
    if |steps| > 0 {
      var before, step := steps[..|steps| - 1], steps[|steps| - 1];
      RunKeepsAll(cfg, s, before);
      var s1 := Run(cfg, s, before);
      ApplyKeeps(cfg, s1, step);
      FlagsKeep(cfg, s1, step);
      if Unasked(s) && Calm(steps) {
        UnaskedKeep(cfg, s1, step);
      }
    }
  }

  lemma LeadsKeeps(cfg: Config, s: Sys, s': Sys)
    requires SysInv(cfg, s) && Flags(cfg, s) && Leads(cfg, s, s')
    ensures SysInv(cfg, s') && Flags(cfg, s') && (Unasked(s) ==> Unasked(s'))
  {
    hide SysInv, Flags, Unasked, Apply, Run, Sized;
    var steps :| Calm(steps) && Run(cfg, s, steps) == s';
    RunKeepsAll(cfg, s, steps);
  }

  lemma InitFlags(cfg: Config, s: Sys)
    requires cfg.Valid() && Init(cfg, s)
    ensures Flags(cfg, s) && Unasked(s)
  {
    forall i: nat, c: nat | Inside(s, i, c)
      ensures FlagsOf(cfg, s.inputs[i], s.nodes[c].conns[i].snd) && PlaceOf(cfg, i, c, s.nodes[c].conns[i])
      ensures !PairOf(s, i, c).asked && !Asking(PairOf(s, i, c))
    {
      assert Fresh(s.nodes[c].conns[i], cfg.rings[c]);
    }
  }

  /** In every state of every run an input has at most `maxPending` writes unseen on a connection,
      and none at all once it finishes. */
  lemma WritesSeen(cfg: Config, s0: Sys, steps: seq<Step>, i: nat, c: nat)
    requires cfg.Valid() && Init(cfg, s0) && Inside(Run(cfg, s0, steps), i, c)
    ensures var s := Run(cfg, s0, steps);
            var conn := s.nodes[c].conns[i];
            && |conn.sent| - cfg.maxPending <= conn.polled <= conn.landedDesc <= |conn.sent|
            && (s.inputs[i].finalizing ==> conn.polled == |conn.sent|)
  {
    hide SysInv, Apply, Run, NodeInv, ConnInv;
    InitInv(cfg, s0);
    InitFlags(cfg, s0);
    RunKeepsAll(cfg, s0, steps);
    var s := Run(cfg, s0, steps);
    InsideSizes(cfg, s);
    InsideInv(cfg, s, i, c);
    assert FlagsOf(cfg, s.inputs[i], s.nodes[c].conns[i].snd);
    Seen(PairOf(s, i, c), s.nodes[c].core.acked, s.nodes[c].core.cw, cfg.rings[c]);
  }

  lemma Seen(p: Pair, acked: nat, cw: nat, r: Rings)
    requires PairInv(p, acked, cw, r)
    ensures p.c.polled <= p.c.landedDesc <= |p.c.sent| && p.c.snd.pending == |p.c.sent| - p.c.polled
  {
    hide Memory, InFlight, Told, StatusCount;
  }
}
