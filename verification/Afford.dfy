/** What an input that has not heard of an abort can still send, and why whoever waits without
    abort needs it. */
module Afford {
  import opened RingMath
  import opened Wire
  import opened InputChannelConnection
  import opened Connection
  import opened ComputeNode
  import opened InputChannelSender
  import opened System
  import opened SystemProofs
  import opened Cycle
  import opened Continuation
  import opened FlagInvariants
  import opened Room
  import opened Progress
  import opened Refusal
  import opened Abort

  // ---- what a step does to one connection ----------------------------------------------------------

  ghost predicate Asks(p: Pair) { p.e.sendMsg.requestAbort }

  /** The compute node changed its end, or nothing that the sender can learn changed. */
  ghost predicate Unheard(p: Pair, p': Pair)
  {
    && (p.asked ==> p'.asked) && p'.c.toInput == p.c.toInput && p'.c.snd.cnAck == p.c.snd.cnAck
  }

  /** A step answers a status message, receives a reply, or does neither. */
  ghost predicate PairMoves(p: Pair, p': Pair)
  {
    || Unheard(p, p')
    || p' == ApplyOp(p, OpReceive)
    || (p.c.arrived.Some? && p' == ApplyOp(p, OpAnswer))
  }

  lemma ConnUnheard(c: Conn, abort: bool)
    ensures Sync(c).toInput == Land(c).toInput == PollWrite(c).toInput == FinalizeConn(c, abort).toInput == c.toInput
    ensures Sync(c).snd.cnAck == Land(c).snd.cnAck == PollWrite(c).snd.cnAck == FinalizeConn(c, abort).snd.cnAck
            == c.snd.cnAck
  {
  }

  lemma SendUnheard(c: Conn, r: Rings, maxPending: nat, payload: seq<Byte>, ts: nat, num: nat)
    ensures var c' := Send(c, r, maxPending, payload, ts, num);
            c'.toInput == c.toInput && c'.snd.cnAck == c.snd.cnAck
  {
    hide CanSend;
  }

  /** What a step does to the connection of input `i` at compute node `c`, which asks for an abort
      from the step on by which it is told to. */
  ghost predicate StepsTo(s: Sys, s': Sys, step: Step, i: nat, c: nat)
  {
    && Inside(s, i, c) && Inside(s', i, c)
    && PairMoves(PairOf(s, i, c), PairOf(s', i, c))
    && (Asks(PairOf(s', i, c)) <==> Asks(PairOf(s, i, c)) || step == AskAbort(c))
  }

  lemma PairSteps(cfg: Config, s: Sys, step: Step, i: nat, c: nat)
    requires SysInv(cfg, s) && Inside(s, i, c) && cfg.Valid() && Sized(cfg, s)
    ensures StepsTo(s, Apply(cfg, s, step), step, i, c)
  {
    hide SysInv, NodeInv, ConnInv, InputInv, Linked, PairMoves, Apply;
    InsideSizes(cfg, s);
    match step
    case Deliver(k) => SourceSteps(cfg, s, step, i, c);
    case SyncRead(k) => SourceSteps(cfg, s, step, i, c);
    case SendNext(k) => SendSteps(cfg, s, k, i, c);
    case WriteDone(k, d) => WriteSteps(cfg, s, k, d, i, c);
    case Finish(k) => FinishSteps(cfg, s, k, i, c);
    case SyncPointers(k, d) => TokenSteps(cfg, s, step, OpSync, k, d, i, c);
    case Arrive(k, d) => TokenSteps(cfg, s, step, OpLand, k, d, i, c);
    case InputStatusStep(k, d) => TokenSteps(cfg, s, step, OpReceive, k, d, i, c);
    case NodeStatusStep(k, d) => TokenSteps(cfg, s, step, OpAnswer, k, d, i, c);
    case _ =>
      NodeSteps(cfg, s, step, i, c);
      NodeOnly(cfg, s, step);
  }

  lemma NodeOnly(cfg: Config, s: Sys, step: Step)
    requires cfg.Valid() && Sized(cfg, s) && (step.ItemDone? || step.FinalSent? || step.AskAbort? || step.Disconnect?)
    ensures Apply(cfg, s, step) == ApplyNode(cfg, s, step)
  {
    hide ApplyNode;
  }

  lemma SourceSteps(cfg: Config, s: Sys, step: Step, i: nat, c: nat)
    requires cfg.Valid() && Sized(cfg, s) && Inside(s, i, c) && (step.Deliver? || step.SyncRead?)
    ensures StepsTo(s, Apply(cfg, s, step), step, i, c)
  {
  }

  lemma SendSteps(cfg: Config, s: Sys, k: nat, i: nat, c: nat)
    requires cfg.Valid() && Sized(cfg, s) && Inside(s, i, c)
    ensures StepsTo(s, Apply(cfg, s, SendNext(k)), SendNext(k), i, c)
  {
    hide Send, Gather, Available, ApplyOp;
    if k < |s.inputs| {
      var inp := s.inputs[k];
      var d := TargetNode(cfg, inp.timeslice);
      SendUnheard(s.nodes[d].conns[k], cfg.rings[d], cfg.maxPending,
                  Gather(cfg.sources[k], cfg.sl, inp.written, inp.timeslice), inp.timeslice, cfg.sl.Length());
    }
  }

  lemma WriteSteps(cfg: Config, s: Sys, k: nat, d: nat, i: nat, c: nat)
    requires cfg.Valid() && Sized(cfg, s) && Inside(s, i, c)
    ensures StepsTo(s, Apply(cfg, s, WriteDone(k, d)), WriteDone(k, d), i, c)
  {
    hide PollWrite, WriteCompleted, ApplyOp;
    if k < |s.inputs| && d < |s.nodes| {
      var conn := s.nodes[d].conns[k];
      ConnUnheard(conn, false);
      if conn.polled < |conn.sent| && s.inputs[k].ackedDesc >= cfg.sources[k].startDesc {
        WriteCourse(s.inputs[k], cfg.sources[k], cfg.sl, conn.sent[conn.polled].tsNum);
      }
    }
  }

  lemma FinishSteps(cfg: Config, s: Sys, k: nat, i: nat, c: nat)
    requires cfg.Valid() && Sized(cfg, s) && Inside(s, i, c)
    ensures StepsTo(s, Apply(cfg, s, Finish(k)), Finish(k), i, c)
  {
    hide FinalizeConn, First, ApplyOp;
    if k < |s.inputs| {
      ConnUnheard(s.nodes[c].conns[k], s.inputs[k].abort);
    }
  }

  lemma TokenSteps(cfg: Config, s: Sys, step: Step, op: Op, k: nat, d: nat, i: nat, c: nat)
    requires SysInv(cfg, s) && cfg.Valid() && Sized(cfg, s) && Inside(s, i, c) && step == StepOf(op, k, d)
    ensures StepsTo(s, Apply(cfg, s, step), step, i, c)
  {
    hide SysInv, NodeInv, ConnInv, InputInv, Linked, Apply, ApplyOp;
    if k < |s.inputs| && d < |s.nodes| {
      OpMoves(cfg, s, k, d, op);
      OpEffect(PairOf(s, k, d), op);
    } else {
      OutOfRange(cfg, s, op, k, d);
    }
  }

  lemma OutOfRange(cfg: Config, s: Sys, op: Op, k: nat, d: nat)
    requires cfg.Valid() && Sized(cfg, s) && !(k < |s.inputs| && d < |s.nodes|)
    ensures Apply(cfg, s, StepOf(op, k, d)) == s
  {
  }

  lemma OpEffect(p: Pair, op: Op)
    ensures PairMoves(p, ApplyOp(p, op)) && (Asks(ApplyOp(p, op)) <==> Asks(p))
    ensures p.asked ==> ApplyOp(p, op).asked
  {
    ConnUnheard(p.c, false);
    hide Land, Sync, ReceiveReply;
  }

  lemma NodeSteps(cfg: Config, s: Sys, step: Step, i: nat, c: nat)
    requires cfg.Valid() && Sized(cfg, s) && Inside(s, i, c)
    requires step.ItemDone? || step.FinalSent? || step.AskAbort? || step.Disconnect?
    ensures StepsTo(s, ApplyNode(cfg, s, step), step, i, c)
  {
    hide HandleCompletion, HandleFinalSent, HandleAbortRequest, HandleDisconnect, StepsTo, NodeAsks;
    var s' := ApplyNode(cfg, s, step);
    if step != AskAbort(c) {
      NoStep(s, step, i, c);
    }
    match step
    case ItemDone(d, p) => if d < |s.nodes| { PlainNodeAsks(s.nodes[d], 0, p); SetNodeSteps(s, s', step, d, i, c); }
    case FinalSent(k, d) => if d < |s.nodes| { PlainNodeAsks(s.nodes[d], k, 0); SetNodeSteps(s, s', step, d, i, c); }
    case AskAbort(d) => if d < |s.nodes| { PlainNodeAsks(s.nodes[d], 0, 0); SetNodeSteps(s, s', step, d, i, c); }
    case Disconnect(k, d) => if d < |s.nodes| { PlainNodeAsks(s.nodes[d], k, 0); SetNodeSteps(s, s', step, d, i, c); }
  }

  lemma NoStep(s: Sys, step: Step, i: nat, c: nat)
    requires Inside(s, i, c) && step != AskAbort(c)
    ensures StepsTo(s, s, step, i, c)
  {
  }

  lemma SetNodeSteps(s: Sys, s': Sys, step: Step, d: nat, i: nat, c: nat)
    requires Inside(s, i, c) && d < |s.nodes| == |s'.nodes| && s'.inputs == s.inputs
    requires s'.nodes == s.nodes[d := s'.nodes[d]] && NodeAsks(s.nodes[d], s'.nodes[d], step == AskAbort(d))
    requires step.AskAbort? ==> step == AskAbort(d)
    ensures StepsTo(s, s', step, i, c)
  {
    hide ApplyOp;
  }

  /** The connections are left alone, and only a request makes a compute node ask. */
  ghost predicate NodeAsks(n: Node, n': Node, ask: bool)
  {
    && n'.conns == n.conns && |n'.core.ends| == |n.core.ends|
    && forall j :: 0 <= j < |n.core.ends| ==>
         (n'.core.ends[j].sendMsg.requestAbort <==> n.core.ends[j].sendMsg.requestAbort || ask)
  }

  lemma PlainNodeAsks(n: Node, i: nat, p: nat)
    ensures NodeAsks(n, HandleCompletion(n, p), false) && NodeAsks(n, HandleFinalSent(n, i), false)
    ensures NodeAsks(n, HandleAbortRequest(n), true) && NodeAsks(n, HandleDisconnect(n, i), false)
  {
  }

  // ---- which compute nodes ask for an abort -----------------------------------------------------------

  /** A reply in flight asks for an abort only if the compute node still does. */
  ghost predicate Honest(p: Pair)
  {
    forall k :: 0 <= k < |p.c.toInput| && p.c.toInput[k].requestAbort ==> Asks(p)
  }

  /** A compute node asks all its inputs or none. */
  ghost predicate AskInv(s: Sys)
  {
    && (forall i: nat, c: nat :: Inside(s, i, c) ==> Honest(PairOf(s, i, c)))
    && (forall i: nat, j: nat, c: nat :: Inside(s, i, c) && Inside(s, j, c) ==>
          (Asks(PairOf(s, i, c)) <==> Asks(PairOf(s, j, c))))
  }

  lemma HonestMoves(p: Pair, p': Pair)
    requires Honest(p) && PairMoves(p, p') && (Asks(p) ==> Asks(p'))
    ensures Honest(p')
  {
  }

  lemma AskKeeps(cfg: Config, s: Sys, step: Step)
    requires SysInv(cfg, s) && AskInv(s) && cfg.Valid() && Sized(cfg, s)
    ensures AskInv(Apply(cfg, s, step))
  {
    hide SysInv, PairMoves, Apply, Honest, Asks;
    var s' := Apply(cfg, s, step);
    ApplyKeeps(cfg, s, step);
    InsideSizes(cfg, s);
    InsideSizes(cfg, s');
    forall i: nat, c: nat | Inside(s', i, c)
      ensures Inside(s, i, c) && Honest(PairOf(s', i, c))
      ensures Asks(PairOf(s', i, c)) <==> Asks(PairOf(s, i, c)) || step == AskAbort(c)
    {
      assert Inside(s, i, c);
      PairSteps(cfg, s, step, i, c);
      HonestMoves(PairOf(s, i, c), PairOf(s', i, c));
    }
  }

  lemma InitAsk(cfg: Config, s: Sys)
    requires cfg.Valid() && Init(cfg, s)
    ensures AskInv(s)
  {
    hide Pow2;
    forall i: nat, c: nat | Inside(s, i, c)
      ensures Honest(PairOf(s, i, c)) && !Asks(PairOf(s, i, c))
    {
      assert Fresh(s.nodes[c].conns[i], cfg.rings[c]);
    }
  }

  lemma {:induction false} RunAsks(cfg: Config, s: Sys, steps: seq<Step>)
    requires SysInv(cfg, s) && AskInv(s) && cfg.Valid() && Sized(cfg, s)
    ensures SysInv(cfg, Run(cfg, s, steps)) && AskInv(Run(cfg, s, steps))
    decreases |steps|
  {
    hide SysInv, AskInv, Apply;
    if |steps| > 0 {
      var before, step := steps[..|steps| - 1], steps[|steps| - 1];
      RunAsks(cfg, s, before);
      ApplyKeeps(cfg, Run(cfg, s, before), step);
      AskKeeps(cfg, Run(cfg, s, before), step);
    }
  }

  // ---- what an input can still send ---------------------------------------------------------------------

  /** The last acknowledge pointers that an input can learn from a compute node that asks for an
      abort without hearing of it: those of a reply from before the request, or what it knows. */
  function LastAck(conn: Conn): (p: Position)
  {
    if |conn.toInput| > 0 && !conn.toInput[0].requestAbort then conn.toInput[0].ack else conn.snd.cnAck
  }

  /** Input `j` can send timeslice `t` without hearing of an abort: there is room, and if the
      target asks for an abort, it is room that the input knows of or is about to learn of. */
  ghost predicate Affordable(cfg: Config, s: Sys, j: nat, t: nat)
  {
    && cfg.Valid() && Sized(cfg, s) && j < |s.inputs| && RoomFor(cfg, j, t)
    && var c, p := TargetNode(cfg, t), t / |cfg.rings|;
       s.nodes[c].core.ends[j].sendMsg.requestAbort ==>
         Granted(cfg, j, c, p, LastAck(s.nodes[c].conns[j]))
  }

  /** Up to position `p` everything fits into the rings behind `ack`. */
  ghost predicate Granted(cfg: Config, j: nat, c: nat, p: nat, ack: Position)
  {
    && InConfig(cfg, j, c)
    && Place(cfg, j, c, p + 1) <= ack.data + cfg.rings[c].DataSize() && p + 1 <= ack.desc + cfg.rings[c].DescSize()
  }

  ghost predicate Affords(cfg: Config, s: Sys, j: nat)
  {
    forall t: nat :: j < |s.inputs| && s.inputs[j].timeslice <= t < cfg.maxTimeslices ==> Affordable(cfg, s, j, t)
  }

  /** Input `j` does not get past timeslice `t`. */
  ghost predicate Held(cfg: Config, s: Sys, j: nat, t: nat)
  {
    j < |s.inputs| && s.inputs[j].timeslice <= t && (Stopped(s.inputs[j]) || !Affordable(cfg, s, j, t))
  }

  /** An input that goes on without hearing of an abort learns nothing new from who asks for one. */
  lemma LastAckStays(p: Pair, p': Pair, acked: nat, cw: nat, r: Rings)
    requires PairInv(p, acked, cw, r) && PairMoves(p, p') && Asks(p) && !p.c.snd.finalizing && !p'.asked
    ensures LastAck(p'.c) == LastAck(p.c)
  {
    TokenPlace(p, acked, cw, r);
    FinalMeansFinalizing(p, acked, cw, r);
    if |p.c.toInput| > 0 {
      ReplyIs(p, acked, cw, r);
    }
    hide ConnInv;
  }

  lemma AffordableBefore(cfg: Config, s: Sys, step: Step, j: nat, t: nat)
    requires SysInv(cfg, s) && Flags(cfg, s) && j < |s.inputs| && cfg.Valid() && Sized(cfg, s)
    requires !Stopped(s.inputs[j]) && !Stopped(Apply(cfg, s, step).inputs[j])
    requires Affordable(cfg, Apply(cfg, s, step), j, t)
    ensures Affordable(cfg, s, j, t)
  {
    hide SysInv, NodeInv, ConnInv, Apply, RoomFor, Granted, PairMoves, LastAck;
    InsideSizes(cfg, s);
    var c := TargetNode(cfg, t);
    InsideInv(cfg, s, j, c);
    PairSteps(cfg, s, step, j, c);
    FlagsAt(cfg, s, j, c);
    if Asks(PairOf(s, j, c)) {
      var core := s.nodes[c].core;
      LastAckStays(PairOf(s, j, c), PairOf(Apply(cfg, s, step), j, c), core.acked, core.cw, cfg.rings[c]);
    }
  }

  lemma LastAckBounds(p: Pair, acked: nat, cw: nat, r: Rings)
    requires PairInv(p, acked, cw, r)
    ensures p.c.snd.cnAck.desc <= LastAck(p.c).desc && p.c.snd.cnAck.data <= LastAck(p.c).data
  {
    hide InFlight, Memory, Told, StatusCount;
    WpMonotone(p.c.sent, p.c.snd.cnAck.desc, LastAck(p.c).desc);
  }

  lemma SpaceNeeded(snd: SenderEnd, r: Rings, maxPending: nat, length: nat)
    requires r.Valid() && WithinRing(snd, r) && CanSend(snd, r, maxPending, length)
    ensures snd.cnWp.data + length + SkipFrom(snd.cnWp.data, r, length) <= snd.cnAck.data + r.DataSize()
    ensures snd.cnWp.desc + 1 <= snd.cnAck.desc + r.DescSize()
  {
    CheckIsExact(snd, r, length + SkipRequired(snd, r, length), 1);
  }

  /** Whoever sends can afford it. */
  lemma SendAffordable(cfg: Config, s: Sys, i: nat)
    requires SysInv(cfg, s) && Flags(cfg, s) && i < |s.inputs| && cfg.Valid() && Sized(cfg, s)
    ensures Apply(cfg, s, SendNext(i)) == s || Affordable(cfg, s, i, s.inputs[i].timeslice)
  {
    hide SysInv, NodeInv, InputInv, Linked, ConnInv, Gather, Payload, CanSend, Available, RoomFor, LastAck, SkipFrom,
         FlagsOf, Pow2;
    InsideSizes(cfg, s);
    var inp, src := s.inputs[i], cfg.sources[i];
    var t := inp.timeslice;
    var c := TargetNode(cfg, t);
    var conn, core := s.nodes[c].conns[i], s.nodes[c].core;
    RoomNeeded(cfg, s, i);
    if Apply(cfg, s, SendNext(i)) != s {
      InvInput(cfg, s, i);
      InsideInv(cfg, s, i, c);
      AvailableInRings(inp, src, cfg.sl);
      GatherIsPayload(src, cfg.sl, inp.written, t);
      SenderBounds(conn, core.ends[i], core.acked, core.cw, cfg.rings[c]);
      SpaceNeeded(conn.snd, cfg.rings[c], cfg.maxPending, |Payload(src, cfg.sl, t)|);
      LastAckBounds(PairOf(s, i, c), core.acked, core.cw, cfg.rings[c]);
      PairFacts(PairOf(s, i, c), core.acked, core.cw, cfg.rings[c]);
      PositionOf(cfg, s, i, c);
      NextTs(cfg, s, i, c);
      assert Inside(s, i, c) && PlaceOf(cfg, i, c, conn);
    }
  }

  lemma HeldStep(cfg: Config, s: Sys, step: Step, j: nat, t: nat)
    requires SysInv(cfg, s) && Flags(cfg, s) && cfg.Valid() && Sized(cfg, s) && Held(cfg, s, j, t)
    ensures Held(cfg, Apply(cfg, s, step), j, t)
  {
    hide SysInv, Flags, Apply, Affordable, Later;
    ApplyLater(cfg, s, step);
    LaterStopped(s, Apply(cfg, s, step), j);
    if step == SendNext(j) {
      SentOneMore(cfg, s, j);
      SendAffordable(cfg, s, j);
      StoppedSends(cfg, s, j);
    } else {
      SendsOnly(cfg, s, step, j);
    }
    if !Stopped(s.inputs[j]) && !Stopped(Apply(cfg, s, step).inputs[j]) && Affordable(cfg, Apply(cfg, s, step), j, t) {
      AffordableBefore(cfg, s, step, j, t);
    }
  }

  lemma LaterStopped(s: Sys, s': Sys, j: nat)
    requires Later(s, s') && j < |s.inputs|
    ensures j < |s'.inputs| && (Stopped(s.inputs[j]) ==> Stopped(s'.inputs[j]))
  {
    assert LaterInput(s, s', j);
  }

  lemma StoppedSends(cfg: Config, s: Sys, j: nat)
    requires cfg.Valid() && Sized(cfg, s) && j < |s.inputs|
    ensures Stopped(s.inputs[j]) ==> Apply(cfg, s, SendNext(j)) == s
  {
    hide Send, Gather, Available;
  }

  lemma {:induction false} HeldForever(cfg: Config, s: Sys, steps: seq<Step>, j: nat, t: nat)
    requires SysInv(cfg, s) && Flags(cfg, s) && cfg.Valid() && Sized(cfg, s) && Held(cfg, s, j, t)
    ensures Held(cfg, Run(cfg, s, steps), j, t)
    decreases |steps|
  {
    hide SysInv, Flags, Held, Apply;
    if |steps| > 0 {
      var before, step := steps[..|steps| - 1], steps[|steps| - 1];
      HeldForever(cfg, s, before, j, t);
      RunKeepsAll(cfg, s, before);
      HeldStep(cfg, Run(cfg, s, before), step, j, t);
    }
  }

  // ---- who finishes without abort needs everybody's timeslices ------------------------------------------

  /** Timeslice `t` was sent exactly if its position was. */
  lemma SentExactly(cfg: Config, s: Sys, j: nat, t: nat)
    requires SysInv(cfg, s) && cfg.Valid() && Sized(cfg, s) && j < |s.inputs|
    ensures t / |cfg.rings| < |s.nodes[TargetNode(cfg, t)].conns[j].sent| <==> t < s.inputs[j].timeslice
  {
    hide NodeInv, InputInv, ConnInv, Carries, AckedTs, TsAt;
    var n := |s.nodes|;
    assert Linked(s.inputs[j], s.nodes[t % n].conns[j], cfg.sources[j], cfg.sl, t % n, n);
    hide SysInv;
    TsAtOf(t, n);
  }

  /** If a connection to the last target has ended without abort, every input has sent
      everything. */
  lemma CleanNeedsAll(cfg: Config, s: Sys, i: nat, j: nat)
    requires SysInv(cfg, s) && cfg.Valid() && Sized(cfg, s) && i < |s.inputs| && j < |s.inputs|
    requires cfg.maxTimeslices > 0 && s.inputs[i].timeslice == cfg.maxTimeslices
    requires var conn := s.nodes[TargetNode(cfg, cfg.maxTimeslices - 1)].conns[i];
             conn.snd.sendMsg.final && !conn.snd.aborting
    ensures s.inputs[j].timeslice >= cfg.maxTimeslices
  {
    hide SysInv, NodeInv, ConnInv;
    var t := cfg.maxTimeslices - 1;
    var c := TargetNode(cfg, t);
    SentExactly(cfg, s, i, t);
    SentExactly(cfg, s, j, t);
    InsideInv(cfg, s, i, c);
    InsideInv(cfg, s, j, c);
    var core := s.nodes[c].core;
    PairFacts(PairOf(s, i, c), core.acked, core.cw, cfg.rings[c]);
    PairFacts(PairOf(s, j, c), core.acked, core.cw, cfg.rings[c]);
  }

  /** Some input finished without abort and waits, and another cannot afford all it has to send. */
  lemma HeldCannotEnd(cfg: Config, s: Sys, i: nat, c: nat, j: nat, t: nat)
    requires SysInv(cfg, s) && Flags(cfg, s) && Waiting(s, i, c) && Held(cfg, s, j, t) && t < cfg.maxTimeslices
    ensures !CanEnd(cfg, s)
  {
    hide SysInv, Flags, AllDone, Run, Sized, Held, Later;
    InvSized(cfg, s);
    forall steps: seq<Step>
      ensures !AllDone(Run(cfg, s, steps))
    {
      var s' := Run(cfg, s, steps);
      HeldForever(cfg, s, steps, j, t);
      RunKeepsAll(cfg, s, steps);
      RunLater(cfg, s, steps);
      HeldNotDone(cfg, s, s', i, c, j, t);
    }
  }

  lemma HeldNotDone(cfg: Config, s: Sys, s': Sys, i: nat, c: nat, j: nat, t: nat)
    requires SysInv(cfg, s) && Flags(cfg, s) && Waiting(s, i, c) && SysInv(cfg, s') && Flags(cfg, s') && Later(s, s')
    requires Held(cfg, s', j, t) && t < cfg.maxTimeslices
    ensures !AllDone(s')
  {
    hide SysInv, NodeInv, ConnInv, Affordable, LaterNode;
    InvSized(cfg, s');
    InsideSizes(cfg, s);
    InsideSizes(cfg, s');
    var d := TargetNode(cfg, cfg.maxTimeslices - 1);
    if AllDone(s') {
      CleanStays(cfg, s, s', i, c, d);
      assert Inside(s', i, d);
      InsideInv(cfg, s', i, d);
      PairFacts(PairOf(s', i, d), s'.nodes[d].core.acked, s'.nodes[d].core.cw, cfg.rings[d]);
      CleanNeedsAll(cfg, s', i, j);
    }
  }

  /** Who finishes without abort on one connection does so on all, and has sent everything. */
  lemma CleanStays(cfg: Config, s: Sys, s': Sys, i: nat, c: nat, d: nat)
    requires SysInv(cfg, s) && Waiting(s, i, c) && SysInv(cfg, s') && Flags(cfg, s') && Later(s, s')
    requires d < |cfg.rings|
    ensures Inside(s', i, d) && !s'.nodes[d].conns[i].snd.aborting && s'.inputs[i].timeslice == cfg.maxTimeslices
  {
    hide SysInv, PlaceOf;
    InsideSizes(cfg, s);
    InsideSizes(cfg, s');
    assert LaterNode(s.nodes[c], s'.nodes[c]);
    assert Inside(s', i, c) && Inside(s', i, d);
    FlagsAt(cfg, s', i, c);
  }
}
