/** One round trip of the token on one connection: what it needs and what it achieves. */
module Cycle {
  import opened Wire
  import opened InputChannelConnection
  import opened Connection
  import CN = ComputeNodeConnection

  /** The steps that move the token. */
  datatype Op = OpLand | OpSync | OpAnswer | OpReceive

  /** A connection, its end at the compute node, and whether the input was asked to abort. */
  datatype Pair = Pair(c: Conn, e: NodeEnd, asked: bool)

  function ApplyOp(p: Pair, op: Op): (p': Pair)
  {
    match op
    case OpLand => p.(c := Land(p.c))
    case OpSync => p.(c := Sync(p.c))
    case OpAnswer =>
      if p.c.arrived.Some? then
        var e := CN.ReceiveStatus(p.e, p.c.arrived.value);
        p.(c := Reply(p.c, e.sendMsg), e := e)
      else p
    case OpReceive =>
      p.(c := ReceiveReply(p.c), asked := p.asked || (|p.c.toInput| > 0 && p.c.toInput[0].requestAbort))
  }

  function RunOps(p: Pair, ops: seq<Op>): (p': Pair)
    decreases |ops|
  {
    if |ops| == 0 then p else RunOps(ApplyOp(p, ops[0]), ops[1..])
  }

  lemma {:induction false} RunOpsAppend(p: Pair, a: seq<Op>, b: seq<Op>)
    ensures RunOps(p, a + b) == RunOps(RunOps(p, a), b)
    decreases |a|
  {
    hide ApplyOp;
    if |a| == 0 {
      assert a + b == b;
    } else {
      assert (a + b)[1..] == a[1..] + b;
      RunOpsAppend(ApplyOp(p, a[0]), a[1..], b);
    }
  }

  lemma RunOp(p: Pair, op: Op)
    ensures RunOps(p, [op]) == ApplyOp(p, op)
  {
    hide ApplyOp;
    assert [op][1..] == [];
  }

  /** What moving the token leaves alone. */
  ghost predicate Same(p: Pair, p': Pair)
  {
    && p'.c.sent == p.c.sent && p'.c.polled == p.c.polled
    && p'.c.snd.cnWp == p.c.snd.cnWp && p'.c.snd.pending == p.c.snd.pending
    && p'.c.snd.finalizing == p.c.snd.finalizing && p'.c.snd.aborting == p.c.snd.aborting
    && p'.e.cnAck == p.e.cnAck && p'.e.done == p.e.done
    && p'.e.sendMsg.requestAbort == p.e.sendMsg.requestAbort
  }

  ghost predicate PairInv(p: Pair, acked: nat, cw: nat, r: Rings) { ConnInv(p.c, p.e, acked, cw, r) }

  lemma OpKeeps(p: Pair, op: Op, acked: nat, cw: nat, r: Rings)
    requires PairInv(p, acked, cw, r)
    ensures PairInv(ApplyOp(p, op), acked, cw, r) && Same(p, ApplyOp(p, op))
  {
    hide ConnInv;
    match op
    case OpLand => LandKeeps(p.c, p.e, acked, cw, r);
    case OpSync => SyncKeeps(p.c, p.e, acked, cw, r);
    case OpAnswer =>
      if p.c.arrived.Some? {
        ReplyKeeps(p.c, p.e, acked, cw, r);
      }
    case OpReceive => ReceiveReplyKeeps(p.c, p.e, acked, cw, r);
  }

  // ---- landing everything ------------------------------------------------------------------

  /** The pair with everything landed. */
  ghost predicate Landed(p: Pair, p': Pair)
  {
    && p'.e == p.e && p'.asked == p.asked && p'.c.snd == p.c.snd && p'.c.toInput == p.c.toInput
    && p'.c.toNode == [] && p'.c.landedDesc == |p'.c.sent|
    && (p'.c.arrived.Some? <==> p.c.arrived.Some? || StatusCount(p.c.toNode) > 0)
  }

  lemma {:induction false} LandAll(p: Pair, acked: nat, cw: nat, r: Rings) returns (ops: seq<Op>, p': Pair)
    requires PairInv(p, acked, cw, r)
    ensures p' == RunOps(p, ops) && PairInv(p', acked, cw, r) && Same(p, p') && Landed(p, p')
    decreases |p.c.toNode|
  {
    hide ConnInv, RunOps;
    if |p.c.toNode| == 0 {
      ops, p' := [], p;
      RunNone(p);
      NothingInFlight(p, acked, cw, r);
    } else {
      var q := ApplyOp(p, OpLand);
      OpKeeps(p, OpLand, acked, cw, r);
      LandKeeps(p.c, p.e, acked, cw, r);
      LandOne(p, acked, cw, r);
      var more;
      more, p' := LandAll(q, acked, cw, r);
      ops := [OpLand] + more;
      RunOpsAppend(p, [OpLand], more);
      RunOp(p, OpLand);
    }
  }

  lemma RunNone(p: Pair)
    ensures RunOps(p, []) == p
  {
  }

  lemma NothingInFlight(p: Pair, acked: nat, cw: nat, r: Rings)
    requires PairInv(p, acked, cw, r) && p.c.toNode == []
    ensures p.c.landedDesc == |p.c.sent| && StatusCount(p.c.toNode) == 0
  {
  }

  lemma LandOne(p: Pair, acked: nat, cw: nat, r: Rings)
    requires PairInv(p, acked, cw, r) && |p.c.toNode| > 0
    ensures var c' := Land(p.c);
            && c'.snd == p.c.snd && c'.toInput == p.c.toInput && |c'.toNode| < |p.c.toNode|
            && (c'.arrived.Some? || StatusCount(c'.toNode) > 0 <==> p.c.arrived.Some? || StatusCount(p.c.toNode) > 0)
  {
    hide Memory, Pointers, Messages, Told;
    LandKeeps(p.c, p.e, acked, cw, r);
  }

  // ---- the token on its way out ----------------------------------------------------------------

  /** The token is on its way to the compute node, with the current write pointers or final. */
  ghost predicate Outbound(p: Pair)
  {
    && (p.c.arrived.Some? || StatusCount(p.c.toNode) > 0)
    && (p.c.snd.sendMsg.final || p.c.snd.sendMsg.wp == p.c.snd.cnWp)
  }

  /** Where the token is. */
  lemma TokenPlace(p: Pair, acked: nat, cw: nat, r: Rings)
    requires PairInv(p, acked, cw, r)
    ensures p.c.arrived.Some? || StatusCount(p.c.toNode) > 0 ==>
              && p.c.toInput == [] && !p.c.snd.ourTurn && !p.c.snd.done
              && !(p.c.arrived.Some? && StatusCount(p.c.toNode) > 0)
    ensures |p.c.toInput| > 0 ==>
              && |p.c.toInput| == 1 && !p.c.snd.ourTurn && !p.c.snd.done
              && p.c.arrived.None? && StatusCount(p.c.toNode) == 0
    ensures p.c.snd.ourTurn ==> !p.c.snd.done && p.c.arrived.None? && StatusCount(p.c.toNode) == 0 && p.c.toInput == []
    ensures p.c.snd.done ==> p.c.arrived.None? && StatusCount(p.c.toNode) == 0 && p.c.toInput == []
    ensures p.c.snd.ourTurn || p.c.snd.done || p.c.arrived.Some? || StatusCount(p.c.toNode) > 0 || |p.c.toInput| == 1
  {
    hide History, Memory, Pointers, Messages, Told, Chain;
  }

  /** What an answered and received message leads to. */
  ghost predicate Returned(p: Pair, p': Pair)
  {
    && p'.c.landedDesc == |p.c.sent| && p'.c.arrived.None? && p'.c.toInput == []
    && (p.c.snd.sendMsg.final ==> p'.c.snd.done && p'.e.cnWp == p.e.cnWp)
    && (!p.c.snd.sendMsg.final ==>
          && !p'.c.snd.done && p'.c.snd.cnAck == p.e.cnAck && p'.e.cnWp == p.c.snd.cnWp
          && p'.c.snd.sendMsg.wp == p.c.snd.cnWp
          && p'.asked == (p.asked || p.e.sendMsg.requestAbort)
          && (if p.c.snd.finalizing then
                && Outbound(p')
                && (p'.c.snd.sendMsg.final <==> p.c.snd.cnWp == p.e.cnAck || p.c.snd.aborting)
              else p'.c.snd.ourTurn && !p'.c.snd.sendMsg.final))
  }

  lemma DrainOutbound(p: Pair, acked: nat, cw: nat, r: Rings) returns (ops: seq<Op>, p': Pair)
    requires PairInv(p, acked, cw, r) && Outbound(p)
    ensures p' == RunOps(p, ops) && PairInv(p', acked, cw, r) && Same(p, p') && Returned(p, p')
  {
    hide ConnInv, RunOps, StatusCount;
    var q;
    ops, q := LandAll(p, acked, cw, r);
    TokenPlace(q, acked, cw, r);
    ArrivedIs(q, acked, cw, r);
    var q1 := ApplyOp(q, OpAnswer);
    OpKeeps(q, OpAnswer, acked, cw, r);
    p' := ApplyOp(q1, OpReceive);
    OpKeeps(q1, OpReceive, acked, cw, r);
    AfterAnswer(q, acked, cw, r);
    assert [OpAnswer, OpReceive] == [OpAnswer] + [OpReceive];
    RunOpsAppend(p, ops, [OpAnswer, OpReceive]);
    RunOpsAppend(q, [OpAnswer], [OpReceive]);
    RunOp(q, OpAnswer);
    RunOp(q1, OpReceive);
    ops := ops + [OpAnswer, OpReceive];
  }

  lemma ArrivedIs(p: Pair, acked: nat, cw: nat, r: Rings)
    requires PairInv(p, acked, cw, r) && p.c.arrived.Some?
    ensures p.c.arrived.value == p.c.snd.sendMsg && (p.e.sendMsg.final ==> p.c.snd.sendMsg.final)
  {
    hide History, Memory, Pointers, Told, Chain;
  }

  /** Answering and receiving, once everything has landed. */
  lemma AfterAnswer(q: Pair, acked: nat, cw: nat, r: Rings)
    requires PairInv(q, acked, cw, r) && Outbound(q) && q.c.arrived.Some? && q.c.toNode == [] && q.c.toInput == []
    requires q.c.arrived.value == q.c.snd.sendMsg && (q.e.sendMsg.final ==> q.c.snd.sendMsg.final)
    requires !q.c.snd.ourTurn && !q.c.snd.done
    requires q.c.landedDesc == |q.c.sent|
    ensures Returned(q, ApplyOp(ApplyOp(q, OpAnswer), OpReceive))
  {
    hide ConnInv, ReceiveReply, Returned;
    var q1 := ApplyOp(q, OpAnswer);
    assert q1.c.toInput == [q1.e.sendMsg];
    AfterReply(q, q1, ApplyOp(q1, OpReceive));
  }

  /** Receiving the answer `q1` to what `q` sent. */
  lemma AfterReply(q: Pair, q1: Pair, p': Pair)
    requires Outbound(q) && q.c.toNode == [] && !q.c.snd.ourTurn && !q.c.snd.done && q.c.landedDesc == |q.c.sent|
    requires q.e.sendMsg.final ==> q.c.snd.sendMsg.final
    requires q1.e == CN.ReceiveStatus(q.e, q.c.snd.sendMsg) && q1.asked == q.asked
    requires q1.c == q.c.(arrived := None, toInput := [q1.e.sendMsg]) && q.c.toInput == []
    requires p' == q1.(c := ReceiveReply(q1.c), asked := q1.asked || q1.e.sendMsg.requestAbort)
    ensures Returned(q, p')
  {
    hide StatusCount;
    var m := q1.e.sendMsg;
    assert q1.c.toInput[1..] == [];
    var out := ReceiveStatus(q1.c.snd, m).out;
    assert p'.c.toNode == Posted(out);
    if |out| == 1 {
      assert Posted(out) == [Status(out[0])];
      OneStatus(out[0]);
    }
  }

  lemma OneStatus(m: InputStatus)
    ensures StatusCount([Status(m)]) == 1
  {
    assert [Status(m)][1..] == [];
  }

  // ---- bringing the token home --------------------------------------------------------------------

  /** From anywhere, a connection that is not done can get the token onto its way out with the
      current write pointers. */
  lemma Depart(p: Pair, acked: nat, cw: nat, r: Rings) returns (ops: seq<Op>, p': Pair)
    requires PairInv(p, acked, cw, r) && !p.c.snd.done
    ensures p' == RunOps(p, ops) && PairInv(p', acked, cw, r) && Same(p, p')
    ensures p'.c.snd.done || Outbound(p')
    ensures p.c.snd.sendMsg.final ==> p'.c.snd.done || p'.c.snd.sendMsg.final
    ensures p'.c.snd.sendMsg.final && !p.c.snd.sendMsg.final ==>
              p.c.snd.finalizing && p'.e.cnWp == p.c.snd.cnWp
    ensures p.c.snd.sendMsg.final ==> p'.e.cnWp == p.e.cnWp
    ensures p.asked ==> p'.asked
    ensures p'.c.snd.done ==> p.c.snd.sendMsg.final
  {
    hide ConnInv, RunOps, StatusCount;
    TokenPlace(p, acked, cw, r);
    if p.c.snd.ourTurn {
      ops, p' := Post(p, acked, cw, r);
    } else if p.c.arrived.Some? || StatusCount(p.c.toNode) > 0 {
      if Outbound(p) {
        ops, p' := [], p;
        RunNone(p);
      } else {
        var ops1, q, ops2;
        ops1, q := Answered(p, acked, cw, r);
        ops2, p' := Collect(q, acked, cw, r);
        RunOpsAppend(p, ops1, ops2);
        ops := ops1 + ops2;
      }
    } else {
      ops, p' := Collect(p, acked, cw, r);
    }
  }

  /** The sender has the token and posts it. */
  lemma Post(p: Pair, acked: nat, cw: nat, r: Rings) returns (ops: seq<Op>, p': Pair)
    requires PairInv(p, acked, cw, r) && p.c.snd.ourTurn
    ensures p' == RunOps(p, ops) && PairInv(p', acked, cw, r) && Same(p, p') && Outbound(p')
    ensures !p.c.snd.sendMsg.final && !p'.c.snd.sendMsg.final && !p'.c.snd.done
    ensures p'.e == p.e && p'.asked == p.asked
  {
    hide ConnInv, RunOps;
    ops, p' := [OpSync], ApplyOp(p, OpSync);
    OpKeeps(p, OpSync, acked, cw, r);
    RunOp(p, OpSync);
    TurnMeansOpen(p, acked, cw, r);
    var m := p.c.snd.sendMsg.(wp := p.c.snd.cnWp);
    assert p'.c.toNode == p.c.toNode + [Status(m)];
    StatusCountAppend(p.c.toNode, [Status(m)]);
    OneStatus(m);
  }

  lemma TurnMeansOpen(p: Pair, acked: nat, cw: nat, r: Rings)
    requires PairInv(p, acked, cw, r) && p.c.snd.ourTurn
    ensures !p.c.snd.sendMsg.final && !p.c.snd.done
  {
    hide History, Memory, Pointers, Told, Chain;
  }

  /** The compute node answers what is on its way. */
  lemma Answered(p: Pair, acked: nat, cw: nat, r: Rings) returns (ops: seq<Op>, p': Pair)
    requires PairInv(p, acked, cw, r) && (p.c.arrived.Some? || StatusCount(p.c.toNode) > 0) && !p.c.snd.sendMsg.final
    ensures p' == RunOps(p, ops) && PairInv(p', acked, cw, r) && Same(p, p')
    ensures |p'.c.toInput| == 1 && p'.c.snd == p.c.snd && p'.asked == p.asked
  {
    hide ConnInv, RunOps, StatusCount;
    var q;
    ops, q := LandAll(p, acked, cw, r);
    TokenPlace(q, acked, cw, r);
    p' := ApplyOp(q, OpAnswer);
    OpKeeps(q, OpAnswer, acked, cw, r);
    RunOpsAppend(p, ops, [OpAnswer]);
    RunOp(q, OpAnswer);
    ops := ops + [OpAnswer];
  }

  /** The sender takes a reply, and posts the token again if it got it back for good. */
  lemma Collect(p: Pair, acked: nat, cw: nat, r: Rings) returns (ops: seq<Op>, p': Pair)
    requires PairInv(p, acked, cw, r) && |p.c.toInput| == 1
    ensures p' == RunOps(p, ops) && PairInv(p', acked, cw, r) && Same(p, p')
    ensures p'.c.snd.done || Outbound(p')
    ensures p'.c.snd.done <==> p.c.snd.sendMsg.final
    ensures p'.c.snd.sendMsg.final && !p.c.snd.sendMsg.final ==> p.c.snd.finalizing && p'.e.cnWp == p.c.snd.cnWp
    ensures p'.e == p.e && (p.asked ==> p'.asked)
  {
    hide ConnInv, RunOps, StatusCount;
    TokenPlace(p, acked, cw, r);
    ReplyIs(p, acked, cw, r);
    var q := ApplyOp(p, OpReceive);
    OpKeeps(p, OpReceive, acked, cw, r);
    RunOp(p, OpReceive);
    var out := ReceiveStatus(p.c.snd, p.c.toInput[0]).out;
    assert q.c.toNode == p.c.toNode + Posted(out);
    if q.c.snd.ourTurn {
      var more;
      more, p' := Post(q, acked, cw, r);
      RunOpsAppend(p, [OpReceive], more);
      ops := [OpReceive] + more;
    } else {
      ops, p' := [OpReceive], q;
      if |out| == 1 {
        assert Posted(out) == [Status(out[0])];
        StatusCountAppend(p.c.toNode, [Status(out[0])]);
        OneStatus(out[0]);
      }
    }
  }

  lemma ReplyIs(p: Pair, acked: nat, cw: nat, r: Rings)
    requires PairInv(p, acked, cw, r) && |p.c.toInput| == 1
    ensures p.c.toInput[0].final == p.c.snd.sendMsg.final == p.e.sendMsg.final
    ensures p.e.cnWp == p.c.snd.sendMsg.wp
  {
    hide History, Memory, Pointers, Chain;
  }

  // ---- one round trip ---------------------------------------------------------------------------

  /** What one round trip achieves: the compute node knows everything sent and the sender
      knows everything acknowledged, and a connection that may end gets closer to its end. */
  ghost predicate Cycled(p: Pair, p': Pair)
  {
    && Same(p, p')
    && (p.c.snd.sendMsg.final ==> p'.c.snd.done && p'.e.cnWp == p.e.cnWp)
    && (!p.c.snd.sendMsg.final ==> p'.e.cnWp == p.c.snd.cnWp)
    && (p'.c.snd.done || (p'.c.snd.cnAck == p.e.cnAck && p'.c.landedDesc == |p.c.sent|))
    && (p.c.snd.finalizing && (p.c.snd.cnWp == p.e.cnAck || p.c.snd.aborting) ==>
        p'.c.snd.done || p'.c.snd.sendMsg.final)
    && (!p.c.snd.finalizing ==> p'.c.snd.ourTurn)
  }

  /** Who is asked to abort stays so, is asked if the compute node asks, and only then. */
  ghost predicate AskedRight(p: Pair, p': Pair)
  {
    && (p.asked ==> p'.asked)
    && (!p.c.snd.finalizing && p.e.sendMsg.requestAbort ==> p'.asked)
    && (!p.asked && !Asking(p) ==> !p'.asked && !Asking(p'))
  }

  /** Some reply asks for an abort, or will. */
  ghost predicate Asking(p: Pair)
  {
    p.e.sendMsg.requestAbort || exists k :: 0 <= k < |p.c.toInput| && p.c.toInput[k].requestAbort
  }

  lemma FinalMeansFinalizing(p: Pair, acked: nat, cw: nat, r: Rings)
    requires PairInv(p, acked, cw, r)
    ensures p.c.snd.sendMsg.final ==> p.c.snd.finalizing
    ensures p.c.snd.done ==> p.c.snd.sendMsg.final
  {
    hide History, Memory, Pointers, Chain, Told;
  }

  lemma RoundTrip(p: Pair, acked: nat, cw: nat, r: Rings) returns (ops: seq<Op>, p': Pair)
    requires PairInv(p, acked, cw, r) && !p.c.snd.done
    ensures p' == RunOps(p, ops) && PairInv(p', acked, cw, r) && Cycled(p, p') && AskedRight(p, p')
  {
    hide ConnInv, RunOps, StatusCount;
    var ops1, q, ops2;
    ops1, q := Depart(p, acked, cw, r);
    FinalMeansFinalizing(p, acked, cw, r);
    FinalMeansFinalizing(q, acked, cw, r);
    if q.c.snd.done {
      ops, p' := ops1, q;
    } else {
      ops2, p' := DrainOutbound(q, acked, cw, r);
      RunOpsAppend(p, ops1, ops2);
      ops := ops1 + ops2;
    }
    NobodyAsks(p, ops);
    StaysAsked(p, ops);
  }

  lemma {:induction false} StaysAsked(p: Pair, ops: seq<Op>)
    ensures p.asked ==> RunOps(p, ops).asked
    decreases |ops|
  {
    if |ops| > 0 {
      StaysAsked(ApplyOp(p, ops[0]), ops[1..]);
    }
  }

  /** Nobody is asked to abort unless somebody asks. */
  lemma {:induction false} NobodyAsks(p: Pair, ops: seq<Op>)
    ensures !p.asked && !Asking(p) ==> !RunOps(p, ops).asked && !Asking(RunOps(p, ops))
    decreases |ops|
  {
    if |ops| > 0 {
      AskedStep(p, ops[0]);
      hide ApplyOp;
      NobodyAsks(ApplyOp(p, ops[0]), ops[1..]);
    }
  }

  lemma AskedStep(p: Pair, op: Op)
    ensures !p.asked && !Asking(p) ==> !ApplyOp(p, op).asked && !Asking(ApplyOp(p, op))
  {
  }
}
