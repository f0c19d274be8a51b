/** Aborts: which connections they leave waiting for ever, and how everything else ends. */
module Abort {
  import opened Wire
  import opened InputChannelConnection
  import opened Connection
  import opened ComputeNode
  import opened InputChannelSender
  import opened System
  import opened SystemProofs
  import opened Cycle
  import opened Continuation
  import opened FlagInvariants
  import opened Room
  import opened Progress
  import CN = ComputeNodeConnection
  import TB = TimesliceBuilder

  // ---- waiting for ever ------------------------------------------------------------------------

  /** The connection finishes without abort and waits until everything is acknowledged. */
  ghost predicate Waiting(s: Sys, i: nat, c: nat)
  {
    && Inside(s, i, c)
    && var snd := s.nodes[c].conns[i].snd; snd.finalizing && !snd.aborting && !snd.sendMsg.final
  }

  /** An input that has stopped sending. */
  predicate Stopped(inp: Input) { inp.abort || inp.finalizing }

  /** The highest write pointer that compute node `c` can still learn from input `j`, once
      that has stopped sending: a final message carries none. */
  ghost function Reach(s: Sys, j: nat, c: nat): (p: nat)
    requires Inside(s, j, c)
  {
    if s.nodes[c].conns[j].snd.sendMsg.final then s.nodes[c].core.ends[j].cnWp.desc else |s.nodes[c].conns[j].sent|
  }

  ghost predicate Blocks(s: Sys, j: nat, i: nat, c: nat)
  {
    && Inside(s, j, c) && Inside(s, i, c) && Stopped(s.inputs[j])
    && Reach(s, j, c) < |s.nodes[c].conns[i].sent|
  }

  /** Somebody has left, so the compute node no longer looks for the slowest input. */
  ghost predicate Frozen(s: Sys, i: nat, c: nat)
  {
    Inside(s, i, c) && s.nodes[c].core.disconnected != {} && s.nodes[c].core.cw < |s.nodes[c].conns[i].sent|
  }

  /** The connection waits for what cannot come. */
  ghost predicate Stuck(s: Sys, i: nat, c: nat)
  {
    Waiting(s, i, c) && (Frozen(s, i, c) || exists j: nat :: Blocks(s, j, i, c))
  }

  // ---- what no step takes back ----------------------------------------------------------------------

  ghost predicate LaterPair(c: Conn, e: NodeEnd, c': Conn, e': NodeEnd)
  {
    && (c.snd.finalizing ==> c'.snd.finalizing && c'.snd.aborting == c.snd.aborting && c'.sent == c.sent)
    && (c.snd.sendMsg.final ==> c'.snd.sendMsg.final && e'.cnWp == e.cnWp)
  }

  ghost predicate LaterNode(n: Node, n': Node)
  {
    && |n'.conns| == |n.conns| && |n'.core.ends| == |n.core.ends|
    && (forall i :: 0 <= i < |n.conns| == |n.core.ends| ==>
          LaterPair(n.conns[i], n.core.ends[i], n'.conns[i], n'.core.ends[i]))
    && (n.core.disconnected != {} ==> n'.core.disconnected != {} && n'.core.cw == n.core.cw)
  }

  /** An input that has stopped sends nothing more. */
  ghost predicate LaterInput(s: Sys, s': Sys, i: nat)
    requires i < |s.inputs| == |s'.inputs|
  {
    && (s.inputs[i].abort ==> s'.inputs[i].abort) && (s.inputs[i].finalizing ==> s'.inputs[i].finalizing)
    && (Stopped(s.inputs[i]) ==>
          forall c: nat :: Inside(s, i, c) && Inside(s', i, c) ==>
              s'.nodes[c].conns[i].sent == s.nodes[c].conns[i].sent)
  }

  ghost predicate Later(s: Sys, s': Sys)
  {
    && |s'.inputs| == |s.inputs| && |s'.nodes| == |s.nodes|
    && (forall i :: 0 <= i < |s.inputs| ==> LaterInput(s, s', i))
    && (forall c :: 0 <= c < |s.nodes| ==> LaterNode(s.nodes[c], s'.nodes[c]))
  }

  lemma StuckLater(cfg: Config, s: Sys, s': Sys, i: nat, c: nat)
    requires SysInv(cfg, s) && SysInv(cfg, s') && Later(s, s') && Stuck(s, i, c)
    ensures Stuck(s', i, c)
  {
    hide SysInv, ConnInv, NodeInv;
    InsideSizes(cfg, s);
    InsideSizes(cfg, s');
    InsideInv(cfg, s', i, c);
    assert LaterNode(s.nodes[c], s'.nodes[c]);
    var core' := s'.nodes[c].core;
    PairFacts(PairOf(s', i, c), core'.acked, core'.cw, cfg.rings[c]);
    if !Frozen(s, i, c) {
      var j: nat :| Blocks(s, j, i, c);
      assert LaterInput(s, s', j);
      InsideInv(cfg, s', j, c);
      PairFacts(PairOf(s', j, c), core'.acked, core'.cw, cfg.rings[c]);
      assert Blocks(s', j, i, c);
    }
  }

  // ---- every step ------------------------------------------------------------------------------------

  lemma LaterSelf(s: Sys)
    ensures Later(s, s)
  {
  }

  lemma ConnLater(c: Conn, e: NodeEnd, acked: nat, cw: nat, r: Rings, abort: bool)
    requires ConnInv(c, e, acked, cw, r)
    ensures LaterPair(c, e, Sync(c), e) && LaterPair(c, e, Land(c), e) && LaterPair(c, e, ReceiveReply(c), e)
    ensures LaterPair(c, e, PollWrite(c), e) && LaterPair(c, e, FinalizeConn(c, abort), e)
    ensures Sync(c).sent == Land(c).sent == ReceiveReply(c).sent == PollWrite(c).sent == FinalizeConn(c, abort).sent
            == c.sent
    ensures c.arrived.Some? ==>
              var e' := CN.ReceiveStatus(e, c.arrived.value); LaterPair(c, e, Reply(c, e'.sendMsg), e')
  {
    hide History, Memory, Pointers, Chain, Told;
  }

  lemma SendLater(c: Conn, e: NodeEnd, acked: nat, cw: nat, r: Rings, maxPending: nat, payload: seq<Byte>, ts: nat,
                  num: nat)
    requires ConnInv(c, e, acked, cw, r)
    ensures LaterPair(c, e, Send(c, r, maxPending, payload, ts, num), e)
  {
    hide History, Memory, Pointers, Chain, Told, CanSend;
  }

  /** One connection changed. */
  lemma SetLater(s: Sys, s': Sys, i: nat, c: nat, conn: Conn)
    requires Inside(s, i, c) && s'.nodes == s.nodes[c := WithConn(s.nodes[c], i, conn)] && |s'.inputs| == |s.inputs|
    requires LaterPair(s.nodes[c].conns[i], s.nodes[c].core.ends[i], conn, s.nodes[c].core.ends[i])
    requires conn.sent == s.nodes[c].conns[i].sent || !Stopped(s.inputs[i])
    requires forall j :: 0 <= j < |s.inputs| ==>
               (s.inputs[j].abort ==> s'.inputs[j].abort) && (s.inputs[j].finalizing ==> s'.inputs[j].finalizing)
    ensures Later(s, s')
  {
  }

  lemma ApplyLater(cfg: Config, s: Sys, step: Step)
    requires SysInv(cfg, s)
    ensures Later(s, Apply(cfg, s, step))
  {
    hide SysInv, InputInv, NodeInv, ConnInv, Linked, Later, ApplyNode, StepSend, StepWriteDone, StepInputStatus, Sync,
         Land, FinishAll, Produce, SyncSource;
    InvSized(cfg, s);
    InsideSizes(cfg, s);
    LaterSelf(s);
    match step
    case Deliver(i) => SourceLater(cfg, s, i);
    case SyncRead(i) => SourceLater(cfg, s, i);
    case SendNext(i) => if i < |s.inputs| { StepSendLater(cfg, s, i); }
    case SyncPointers(i, c) => if i < |s.inputs| && c < |s.nodes| { PlainLater(cfg, s, i, c); }
    case Arrive(i, c) => if i < |s.inputs| && c < |s.nodes| { PlainLater(cfg, s, i, c); }
    case InputStatusStep(i, c) => if i < |s.inputs| && c < |s.nodes| { StatusLater(cfg, s, i, c); }
    case WriteDone(i, c) => if i < |s.inputs| && c < |s.nodes| { WriteLater(cfg, s, i, c); }
    case Finish(i) => if i < |s.inputs| { FinishLater(cfg, s, i); }
    case _ => NodeLater(cfg, s, step);
  }

  lemma SourceLater(cfg: Config, s: Sys, i: nat)
    requires cfg.Valid() && Sized(cfg, s)
    ensures i < |s.inputs| ==> Later(s, SetInput(cfg, s, i, Produce(s.inputs[i], cfg.sources[i])))
    ensures i < |s.inputs| ==> Later(s, SetInput(cfg, s, i, SyncSource(s.inputs[i])))
  {
  }

  lemma PlainLater(cfg: Config, s: Sys, i: nat, c: nat)
    requires SysInv(cfg, s) && Inside(s, i, c)
    ensures Later(s, Set(s, i, c, Sync(s.nodes[c].conns[i]))) && Later(s, Set(s, i, c, Land(s.nodes[c].conns[i])))
  {
    hide SysInv, NodeInv, ConnInv, Later, Sync, Land;
    InsideSizes(cfg, s);
    InsideInv(cfg, s, i, c);
    var conn, core := s.nodes[c].conns[i], s.nodes[c].core;
    ConnLater(conn, core.ends[i], core.acked, core.cw, cfg.rings[c], false);
    SetLater(s, Set(s, i, c, Sync(conn)), i, c, Sync(conn));
    SetLater(s, Set(s, i, c, Land(conn)), i, c, Land(conn));
  }

  lemma StatusLater(cfg: Config, s: Sys, i: nat, c: nat)
    requires SysInv(cfg, s) && Inside(s, i, c)
    ensures Later(s, StepInputStatus(s, i, c))
  {
    hide SysInv, NodeInv, ConnInv, Later, ReceiveReply;
    LaterSelf(s);
    InsideSizes(cfg, s);
    InsideInv(cfg, s, i, c);
    var conn, core := s.nodes[c].conns[i], s.nodes[c].core;
    ConnLater(conn, core.ends[i], core.acked, core.cw, cfg.rings[c], false);
    if |conn.toInput| > 0 {
      SetLater(s, StepInputStatus(s, i, c), i, c, ReceiveReply(conn));
    }
  }

  lemma WriteLater(cfg: Config, s: Sys, i: nat, c: nat)
    requires cfg.Valid() && Sized(cfg, s) && SysInv(cfg, s) && Inside(s, i, c)
    ensures Later(s, StepWriteDone(cfg, s, i, c))
  {
    hide SysInv, NodeInv, ConnInv, Later, PollWrite, WriteCompleted;
    LaterSelf(s);
    InsideSizes(cfg, s);
    InsideInv(cfg, s, i, c);
    var conn, core := s.nodes[c].conns[i], s.nodes[c].core;
    ConnLater(conn, core.ends[i], core.acked, core.cw, cfg.rings[c], false);
    if conn.polled < conn.landedDesc && conn.polled < |conn.sent| && conn.snd.pending > 0
       && s.inputs[i].ackedDesc >= cfg.sources[i].startDesc {
      WriteCourse(s.inputs[i], cfg.sources[i], cfg.sl, conn.sent[conn.polled].tsNum);
      SetLater(s, StepWriteDone(cfg, s, i, c), i, c, PollWrite(conn));
    }
  }

  lemma StepSendLater(cfg: Config, s: Sys, i: nat)
    requires cfg.Valid() && Sized(cfg, s) && SysInv(cfg, s) && i < |s.inputs|
    ensures Later(s, StepSend(cfg, s, i))
  {
    hide SysInv, NodeInv, ConnInv, Later, Gather, Send, Available;
    LaterSelf(s);
    InsideSizes(cfg, s);
    var inp := s.inputs[i];
    var c := TargetNode(cfg, inp.timeslice);
    InsideInv(cfg, s, i, c);
    var conn, core := s.nodes[c].conns[i], s.nodes[c].core;
    var payload := Gather(cfg.sources[i], cfg.sl, inp.written, inp.timeslice);
    SendLater(conn, core.ends[i], core.acked, core.cw, cfg.rings[c], cfg.maxPending, payload, inp.timeslice,
              cfg.sl.Length());
    var conn' := Send(conn, cfg.rings[c], cfg.maxPending, payload, inp.timeslice, cfg.sl.Length());
    if StepSend(cfg, s, i) != s {
      SetLater(s, StepSend(cfg, s, i), i, c, conn');
    }
  }

  lemma FinishLater(cfg: Config, s: Sys, i: nat)
    requires cfg.Valid() && Sized(cfg, s) && SysInv(cfg, s) && i < |s.inputs|
    ensures Later(s, FinishAll(SetInput(cfg, s, i, s.inputs[i].(finalizing := true)), i, s.inputs[i].abort))
  {
    hide SysInv, NodeInv, ConnInv, FinalizeConn;
    InsideSizes(cfg, s);
    forall c | 0 <= c < |s.nodes|
      ensures var conn, e := s.nodes[c].conns[i], s.nodes[c].core.ends[i];
              && LaterPair(conn, e, FinalizeConn(conn, s.inputs[i].abort), e)
              && FinalizeConn(conn, s.inputs[i].abort).sent == conn.sent
    {
      InsideInv(cfg, s, i, c);
      var core := s.nodes[c].core;
      ConnLater(s.nodes[c].conns[i], core.ends[i], core.acked, core.cw, cfg.rings[c], s.inputs[i].abort);
    }
  }

  lemma NodeLater(cfg: Config, s: Sys, step: Step)
    requires cfg.Valid() && Sized(cfg, s) && SysInv(cfg, s)
    ensures Later(s, ApplyNode(cfg, s, step))
  {
    hide SysInv, NodeInv, ConnInv, HandleStatus, HandleCompletion, HandleFinalSent, HandleAbortRequest,
         HandleDisconnect, Later, LaterNode;
    InsideSizes(cfg, s);
    LaterSelf(s);
    var s' := ApplyNode(cfg, s, step);
    match step
    case NodeStatusStep(i, c) =>
      if c < |s.nodes| {
        InsideInv(cfg, s, 0, c);
        StatusNodeLater(s.nodes[c], i, cfg.rings[c]);
        SetNodeLater(s, s', c, HandleStatus(s.nodes[c], i));
      }
    case ItemDone(c, p) =>
      if c < |s.nodes| { PlainNodeLater(s.nodes[c], 0, p); SetNodeLater(s, s', c, HandleCompletion(s.nodes[c], p)); }
    case FinalSent(i, c) =>
      if c < |s.nodes| { PlainNodeLater(s.nodes[c], i, 0); SetNodeLater(s, s', c, HandleFinalSent(s.nodes[c], i)); }
    case AskAbort(c) =>
      if c < |s.nodes| { PlainNodeLater(s.nodes[c], 0, 0); SetNodeLater(s, s', c, HandleAbortRequest(s.nodes[c])); }
    case Disconnect(i, c) =>
      if c < |s.nodes| { PlainNodeLater(s.nodes[c], i, 0); SetNodeLater(s, s', c, HandleDisconnect(s.nodes[c], i)); }
    case _ =>
  }

  lemma SetNodeLater(s: Sys, s': Sys, c: nat, n: Node)
    requires c < |s.nodes| && LaterNode(s.nodes[c], n) && s' == s.(nodes := s.nodes[c := n])
    requires |n.conns| == |s.nodes[c].conns|
    requires forall j :: 0 <= j < |n.conns| ==> n.conns[j].sent == s.nodes[c].conns[j].sent
    ensures Later(s, s')
  {
  }

  lemma PlainNodeLater(n: Node, i: nat, p: nat)
    ensures LaterNode(n, HandleCompletion(n, p)) && HandleCompletion(n, p).conns == n.conns
    ensures LaterNode(n, HandleFinalSent(n, i)) && HandleFinalSent(n, i).conns == n.conns
    ensures LaterNode(n, HandleAbortRequest(n)) && HandleAbortRequest(n).conns == n.conns
    ensures LaterNode(n, HandleDisconnect(n, i)) && HandleDisconnect(n, i).conns == n.conns
  {
  }

  lemma StatusNodeLater(n: Node, i: nat, r: Rings)
    requires NodeInv(n, r)
    ensures LaterNode(n, HandleStatus(n, i))
    ensures |HandleStatus(n, i).conns| == |n.conns|
    ensures forall j :: 0 <= j < |n.conns| ==> HandleStatus(n, i).conns[j].sent == n.conns[j].sent
  {
    hide ConnInv, TB.MinElement, TB.ItemsFor, TB.Positions, CN.ReceiveStatus;
    if i < |n.conns| {
      NodeParts(n, i, r);
      ConnLater(n.conns[i], n.core.ends[i], n.core.acked, n.core.cw, r, false);
    }
  }

  /** A connection that is stuck stays stuck, whatever happens. */
  lemma {:induction false} StuckForever(cfg: Config, s: Sys, steps: seq<Step>, i: nat, c: nat)
    requires SysInv(cfg, s) && Stuck(s, i, c)
    ensures cfg.Valid() && Sized(cfg, s) && SysInv(cfg, Run(cfg, s, steps)) && Stuck(Run(cfg, s, steps), i, c)
    decreases |steps|
  {
    hide SysInv, Stuck, Apply, Later;
    InvSized(cfg, s);
    if |steps| > 0 {
      var before, step := steps[..|steps| - 1], steps[|steps| - 1];
      StuckForever(cfg, s, before, i, c);
      var s1 := Run(cfg, s, before);
      ApplyKeeps(cfg, s1, step);
      ApplyLater(cfg, s1, step);
      StuckLater(cfg, s1, Apply(cfg, s1, step), i, c);
    }
  }

  lemma StuckNotDone(cfg: Config, s: Sys, i: nat, c: nat)
    requires SysInv(cfg, s) && Stuck(s, i, c)
    ensures Inside(s, i, c) && !s.nodes[c].conns[i].snd.done
  {
    hide SysInv, ConnInv, NodeInv;
    InsideSizes(cfg, s);
    InsideInv(cfg, s, i, c);
    PairFacts(PairOf(s, i, c), s.nodes[c].core.acked, s.nodes[c].core.cw, cfg.rings[c]);
  }

  lemma LaterOn(s: Sys, s1: Sys, s2: Sys)
    requires Later(s, s1) && Later(s1, s2)
    ensures Later(s, s2)
  {
    forall c | 0 <= c < |s.nodes|
      ensures LaterNode(s.nodes[c], s2.nodes[c])
    {
      assert LaterNode(s.nodes[c], s1.nodes[c]) && LaterNode(s1.nodes[c], s2.nodes[c]);
      NodeLaterOn(s.nodes[c], s1.nodes[c], s2.nodes[c]);
    }
    forall i | 0 <= i < |s.inputs|
      ensures LaterInput(s, s2, i)
    {
      assert LaterInput(s, s1, i) && LaterInput(s1, s2, i);
      InputLaterOn(s, s1, s2, i);
    }
  }

  lemma NodeLaterOn(a: Node, b: Node, d: Node)
    requires LaterNode(a, b) && LaterNode(b, d)
    ensures LaterNode(a, d)
  {
    forall i | 0 <= i < |a.conns| == |a.core.ends|
      ensures LaterPair(a.conns[i], a.core.ends[i], d.conns[i], d.core.ends[i])
    {
      assert LaterPair(a.conns[i], a.core.ends[i], b.conns[i], b.core.ends[i]);
      assert LaterPair(b.conns[i], b.core.ends[i], d.conns[i], d.core.ends[i]);
    }
  }

  lemma InputLaterOn(s: Sys, s1: Sys, s2: Sys, i: nat)
    requires i < |s.inputs| == |s1.inputs| == |s2.inputs| && |s.nodes| == |s1.nodes| == |s2.nodes|
    requires LaterInput(s, s1, i) && LaterInput(s1, s2, i)
    requires forall c :: 0 <= c < |s.nodes| ==> LaterNode(s.nodes[c], s1.nodes[c])
    ensures LaterInput(s, s2, i)
  {
    if Stopped(s.inputs[i]) {
      forall c: nat | Inside(s, i, c) && Inside(s2, i, c)
        ensures s2.nodes[c].conns[i].sent == s.nodes[c].conns[i].sent
      {
        assert LaterNode(s.nodes[c], s1.nodes[c]);
        assert Inside(s1, i, c);
      }
    }
  }

  lemma {:induction false} RunLater(cfg: Config, s: Sys, steps: seq<Step>)
    requires SysInv(cfg, s)
    ensures cfg.Valid() && Sized(cfg, s) && SysInv(cfg, Run(cfg, s, steps)) && Later(s, Run(cfg, s, steps))
    decreases |steps|
  {
    hide SysInv, Apply, Later;
    InvSized(cfg, s);
    LaterSelf(s);
    if |steps| > 0 {
      var before, step := steps[..|steps| - 1], steps[|steps| - 1];
      RunLater(cfg, s, before);
      var s1 := Run(cfg, s, before);
      ApplyKeeps(cfg, s1, step);
      ApplyLater(cfg, s1, step);
      LaterOn(s, s1, Apply(cfg, s1, step));
    }
  }

  // ---- finishing with an abort ----------------------------------------------------------------------

  /** Every write was seen to complete, then the connection was finished with an abort. */
  ghost function Aborted(c: Conn): (c': Conn)
  {
    FinalizeConn(c.(polled := |c.sent|, snd := c.snd.(pending := 0)), true)
  }

  lemma AbortedFlags(c: Conn)
    requires !c.snd.finalizing
    ensures var c' := Aborted(c); c'.snd.finalizing && c'.snd.aborting && c'.sent == c.sent
  {
  }

  ghost predicate NodeAborted(a: Node, b: Node, inputs: seq<Input>, n: nat)
  {
    && b.core == a.core && |b.conns| == |a.conns| == |inputs|
    && forall i :: 0 <= i < |a.conns| ==>
         b.conns[i] == if i < n && !inputs[i].finalizing then Aborted(a.conns[i]) else a.conns[i]
  }

  /** Of the first `n` inputs all that had stopped without finishing are finished now. */
  ghost predicate AbortedSome(s: Sys, s': Sys, n: nat)
  {
    && |s'.inputs| == |s.inputs| && |s'.nodes| == |s.nodes|
    && (forall i :: 0 <= i < |s.inputs| ==>
          s'.inputs[i].finalizing == (s.inputs[i].finalizing || i < n) && s'.inputs[i].abort == s.inputs[i].abort)
    && (forall c :: 0 <= c < |s.nodes| ==> NodeAborted(s.nodes[c], s'.nodes[c], s.inputs, n))
  }

  lemma AbortAt(cfg: Config, s: Sys, k: nat) returns (s': Sys)
    requires SysInv(cfg, s) && k < |cfg.sources| && k < |s.inputs| && s.inputs[k].abort && !s.inputs[k].finalizing
    requires forall c :: 0 <= c < |cfg.rings| ==> HasLanded(s, k, c)
    ensures Leads(cfg, s, s') && SysInv(cfg, s')
    ensures |s'.inputs| == |s.inputs| && |s'.nodes| == |s.nodes|
    ensures forall i :: 0 <= i < |s.inputs| && i != k ==> s'.inputs[i] == s.inputs[i]
    ensures s'.inputs[k].finalizing && s'.inputs[k].abort
    ensures forall c :: 0 <= c < |s.nodes| ==> AbortedHere(s.nodes[c], s'.nodes[c], k)
  {
    hide SysInv, Leads, ConnInv, NodeInv, Sized, FinalizeConn;
    InsideSizes(cfg, s);
    var s1 := PollInput(cfg, s, k, |cfg.rings|);
    InsideSizes(cfg, s1);
    forall c | 0 <= c < |cfg.rings|
      ensures Inside(s1, k, c) && NothingOpen(s1, k, c)
    {
      assert NodePolled(s.nodes[c], s1.nodes[c], k, true);
      assert Inside(s1, k, c);
    }
    s' := FinishAt(cfg, s1, k);
    LeadsOn(cfg, s, s1, s');
    forall c | 0 <= c < |s.nodes|
      ensures AbortedHere(s.nodes[c], s'.nodes[c], k)
    {
      assert NodePolled(s.nodes[c], s1.nodes[c], k, true);
    }
  }

  ghost predicate AbortedHere(a: Node, b: Node, k: nat)
  {
    && b.core == a.core && |b.conns| == |a.conns| && k < |a.conns|
    && forall i :: 0 <= i < |a.conns| ==> b.conns[i] == if i == k then Aborted(a.conns[i]) else a.conns[i]
  }

  lemma {:induction false} AbortSome(cfg: Config, s: Sys, n: nat) returns (s': Sys)
    requires SysInv(cfg, s) && n <= |cfg.sources| == |s.inputs|
    requires forall i :: 0 <= i < n ==> Stopped(s.inputs[i])
    requires forall i, c :: 0 <= i < n && 0 <= c < |cfg.rings| && !s.inputs[i].finalizing ==> HasLanded(s, i, c)
    ensures Leads(cfg, s, s') && SysInv(cfg, s') && AbortedSome(s, s', n)
    decreases n
  {
    hide SysInv, Leads, ConnInv, NodeInv, Sized, Aborted;
    InsideSizes(cfg, s);
    if n == 0 {
      s' := s;
      InvSized(cfg, s);
      LeadsSelf(cfg, s);
      forall c | 0 <= c < |s.nodes|
        ensures NodeAborted(s.nodes[c], s'.nodes[c], s.inputs, 0)
      {
        SizesAt(cfg, s, c);
      }
    } else {
      var k := n - 1;
      var s1 := AbortSome(cfg, s, k);
      if s.inputs[k].finalizing {
        s' := s1;
        forall c | 0 <= c < |s.nodes|
          ensures NodeAborted(s.nodes[c], s'.nodes[c], s.inputs, n)
        {
          assert NodeAborted(s.nodes[c], s1.nodes[c], s.inputs, k);
        }
      } else {
        InsideSizes(cfg, s1);
        forall c | 0 <= c < |cfg.rings|
          ensures HasLanded(s1, k, c)
        {
          assert NodeAborted(s.nodes[c], s1.nodes[c], s.inputs, k) && HasLanded(s, k, c);
          assert Inside(s1, k, c);
        }
        s' := AbortAt(cfg, s1, k);
        LeadsOn(cfg, s, s1, s');
        forall c | 0 <= c < |s.nodes|
          ensures NodeAborted(s.nodes[c], s'.nodes[c], s.inputs, n)
        {
          assert NodeAborted(s.nodes[c], s1.nodes[c], s.inputs, k) && AbortedHere(s1.nodes[c], s'.nodes[c], k);
        }
      }
    }
  }

  lemma SizesAt(cfg: Config, s: Sys, c: nat)
    requires SysInv(cfg, s) && c < |s.nodes|
    ensures |s.nodes[c].conns| == |s.inputs|
  {
    hide InputInv, NodeInv, Linked;
  }

  // ---- once no input sends any more -------------------------------------------------------------------

  ghost predicate AllStopped(s: Sys) { forall i :: 0 <= i < |s.inputs| ==> Stopped(s.inputs[i]) }

  ghost predicate NoneStuck(s: Sys) { forall i: nat, c: nat :: !Stuck(s, i, c) }

  /** After a round trip the compute node has learnt what it can learn. */
  lemma TurnedReach(cfg: Config, s: Sys, s1: Sys, j: nat, c: nat)
    requires SysInv(cfg, s) && j < |cfg.sources| && c < |cfg.rings| && Turned(s, s1, j, c)
    ensures s1.nodes[c].core.ends[j].cnWp.desc == Reach(s, j, c)
  {
    hide SysInv, ConnInv, NodeInv;
    InsideInv(cfg, s, j, c);
    PairFacts(PairOf(s, j, c), s.nodes[c].core.acked, s.nodes[c].core.cw, cfg.rings[c]);
  }

  lemma RedLantern(n: Node, r: Rings)
    requires NodeInv(n, r) && n.core.disconnected == {}
    ensures n.core.redLantern < |n.core.ends| == |n.conns| && n.core.ends[n.core.redLantern].cnWp.desc == n.core.cw
  {
    hide ConnInv;
  }

  /** A waiting connection that is not stuck sees everything written that it sent. */
  lemma ReachesCw(cfg: Config, s: Sys, s1: Sys, i: nat, c: nat)
    requires SysInv(cfg, s) && SysInv(cfg, s1) && AllTurned(s, s1, |cfg.rings|)
    requires AllStopped(s) && Waiting(s, i, c) && !Stuck(s, i, c)
    ensures Inside(s1, i, c) && s1.nodes[c].core.cw >= |s.nodes[c].conns[i].sent|
  {
    hide SysInv, ConnInv, NodeInv, Turned;
    InsideSizes(cfg, s);
    InsideSizes(cfg, s1);
    InsideInv(cfg, s1, i, c);
    assert NodeSame(s.nodes[c], s1.nodes[c]);
    if s1.nodes[c].core.disconnected == {} {
      RedLantern(s1.nodes[c], cfg.rings[c]);
      var j := s1.nodes[c].core.redLantern;
      assert Turned(s, s1, j, c);
      TurnedReach(cfg, s, s1, j, c);
      assert !Blocks(s, j, i, c);
    }
  }

  /** Every connection that is not done aborts, or waits without being stuck. */
  lemma EndReady(cfg: Config, s: Sys, s1: Sys, s2: Sys, i: nat, c: nat)
    requires SysInv(cfg, s) && Flags(cfg, s) && SysInv(cfg, s1) && SysInv(cfg, s2)
    requires AllTurned(s, s1, |cfg.rings|) && AllStopped(s) && NoneStuck(s)
    requires AbortedSome(s1, s2, |s1.inputs|) && Inside(s2, i, c)
    ensures var snd := s2.nodes[c].conns[i].snd;
            snd.done || (snd.finalizing && (snd.aborting || s2.nodes[c].core.cw == |s2.nodes[c].conns[i].sent|))
  {
    hide SysInv, ConnInv, NodeInv, Aborted;
    InsideSizes(cfg, s);
    InsideSizes(cfg, s1);
    assert NodeAborted(s1.nodes[c], s2.nodes[c], s1.inputs, |s1.inputs|);
    assert Inside(s, i, c) && Inside(s1, i, c);
    assert Turned(s, s1, i, c);
    InsideInv(cfg, s, i, c);
    InsideInv(cfg, s2, i, c);
    PairFacts(PairOf(s, i, c), s.nodes[c].core.acked, s.nodes[c].core.cw, cfg.rings[c]);
    PairFacts(PairOf(s2, i, c), s2.nodes[c].core.acked, s2.nodes[c].core.cw, cfg.rings[c]);
    assert FlagsOf(cfg, s.inputs[i], s.nodes[c].conns[i].snd);
    if !s.inputs[i].finalizing {
      AbortedFlags(s1.nodes[c].conns[i]);
    } else if Waiting(s, i, c) {
      ReachesCw(cfg, s, s1, i, c);
    }
  }

  /** What is needed before and after the work items are completed. */
  lemma WorkedEnds(cfg: Config, s: Sys, s': Sys)
    requires SysInv(cfg, s) && SysInv(cfg, s') && AllWorked(s, s', |cfg.rings|)
    requires forall i: nat, c: nat :: Inside(s, i, c) ==>
               var snd := s.nodes[c].conns[i].snd;
               snd.done || (snd.finalizing && (snd.aborting || s.nodes[c].core.cw == |s.nodes[c].conns[i].sent|))
    ensures forall i: nat, c: nat :: Inside(s', i, c) ==> MayEnd(s', i, c)
  {
    hide SysInv, ConnInv, NodeInv;
    InsideSizes(cfg, s);
    InsideSizes(cfg, s');
    forall i: nat, c: nat | Inside(s', i, c)
      ensures MayEnd(s', i, c)
    {
      assert Worked(s.nodes[c], s'.nodes[c]);
      assert Inside(s, i, c);
    }
  }

  /** If no input sends any more and no connection is stuck, every connection can end. */
  lemma EndStopped(cfg: Config, s: Sys) returns (s': Sys)
    requires SysInv(cfg, s) && Flags(cfg, s) && AllStopped(s) && NoneStuck(s)
    ensures Leads(cfg, s, s') && AllDone(s')
  {
    hide SysInv, Flags, Leads, ConnInv, NodeInv, Sized, Cycled, Turned, NoneStuck, Aborted, MayEnd;
    InsideSizes(cfg, s);
    var s1 := Pass(cfg, s, |cfg.rings|);
    InsideSizes(cfg, s1);
    forall i, c | 0 <= i < |s1.inputs| && 0 <= c < |cfg.rings| && !s1.inputs[i].finalizing
      ensures HasLanded(s1, i, c)
    {
      assert Inside(s, i, c) && Turned(s, s1, i, c);
      TurnedLands(cfg, s, s1, i, c);
    }
    var s2 := AbortSome(cfg, s1, |s1.inputs|);
    var s3 := WorkAll(cfg, s2, |cfg.rings|);
    forall i: nat, c: nat | Inside(s2, i, c)
      ensures var snd := s2.nodes[c].conns[i].snd;
              snd.done || (snd.finalizing && (snd.aborting || s2.nodes[c].core.cw == |s2.nodes[c].conns[i].sent|))
    {
      EndReady(cfg, s, s1, s2, i, c);
    }
    WorkedEnds(cfg, s2, s3);
    s' := EndAll(cfg, s3);
    LeadsOn(cfg, s, s1, s2);
    LeadsOn(cfg, s, s2, s3);
    LeadsOn(cfg, s, s3, s');
  }

  lemma TurnedLands(cfg: Config, s: Sys, s1: Sys, i: nat, c: nat)
    requires SysInv(cfg, s) && Flags(cfg, s) && i < |cfg.sources| && c < |cfg.rings| && Turned(s, s1, i, c)
    requires !s.inputs[i].finalizing && SysInv(cfg, s1)
    ensures HasLanded(s1, i, c)
  {
    hide SysInv, ConnInv, NodeInv;
    InsideInv(cfg, s, i, c);
    InsideInv(cfg, s1, i, c);
    assert FlagsOf(cfg, s.inputs[i], s.nodes[c].conns[i].snd);
    PairFacts(PairOf(s, i, c), s.nodes[c].core.acked, s.nodes[c].core.cw, cfg.rings[c]);
    PairFacts(PairOf(s1, i, c), s1.nodes[c].core.acked, s1.nodes[c].core.cw, cfg.rings[c]);
  }

  /** Some continuation ends every connection. */
  ghost predicate CanEnd(cfg: Config, s: Sys)
  {
    cfg.Valid() && Sized(cfg, s) && exists steps :: AllDone(Run(cfg, s, steps))
  }

  lemma EndsBy(cfg: Config, s: Sys, steps: seq<Step>)
    requires cfg.Valid() && Sized(cfg, s) && AllDone(Run(cfg, s, steps))
    ensures CanEnd(cfg, s)
  {
    hide AllDone, Run, Sized;
  }

  lemma StuckCannotEnd(cfg: Config, s: Sys, i: nat, c: nat)
    requires SysInv(cfg, s) && Stuck(s, i, c)
    ensures !CanEnd(cfg, s)
  {
    hide SysInv, Stuck, AllDone, Run, Sized;
    InvSized(cfg, s);
    forall steps: seq<Step>
      ensures !AllDone(Run(cfg, s, steps))
    {
      StuckForever(cfg, s, steps, i, c);
      StuckNotDone(cfg, Run(cfg, s, steps), i, c);
      DoneAt(Run(cfg, s, steps), i, c);
    }
  }

  /** Once no input sends any more, every connection can still end if and only if none is stuck. */
  lemma EndExactly(cfg: Config, s0: Sys, before: seq<Step>)
    requires cfg.Valid() && Init(cfg, s0) && AllStopped(Run(cfg, s0, before))
    ensures var s := Run(cfg, s0, before); CanEnd(cfg, s) <==> NoneStuck(s)
  {
    hide SysInv, Flags, Apply, Run, AllDone, Stuck, AllStopped, CanEnd, Sized;
    InitInv(cfg, s0);
    InitFlags(cfg, s0);
    RunKeepsAll(cfg, s0, before);
    var s := Run(cfg, s0, before);
    if NoneStuck(s) {
      var s' := EndStopped(cfg, s);
      var steps := LeadsSteps(cfg, s, s');
      EndsBy(cfg, s, steps);
    } else {
      var i: nat, c: nat :| Stuck(s, i, c);
      StuckCannotEnd(cfg, s, i, c);
    }
  }

  lemma DoneAt(s: Sys, i: nat, c: nat)
    requires Inside(s, i, c)
    ensures AllDone(s) ==> s.nodes[c].conns[i].snd.done
  {
  }

  // ---- asking for an abort -------------------------------------------------------------------------

  ghost predicate NoneWaiting(s: Sys) { forall i: nat, c: nat :: !Waiting(s, i, c) }

  /** If no input waits to finish without abort, an abort ends everything. */
  lemma AbortEnds(cfg: Config, s0: Sys, before: seq<Step>)
    requires cfg.Valid() && Init(cfg, s0) && NoneWaiting(Run(cfg, s0, before))
    ensures CanEnd(cfg, Run(cfg, s0, before))
  {
    hide SysInv, Flags, Apply, Run, AllDone, NoneWaiting, Leads, Later, Sized, NodeTurned, CanEnd;
    InitInv(cfg, s0);
    InitFlags(cfg, s0);
    RunKeepsAll(cfg, s0, before);
    var s := Run(cfg, s0, before);
    InvSized(cfg, s);
    var ask := [AskAbort(0)];
    assert [] + ask == ask;
    RunLast(cfg, s, [], AskAbort(0));
    RunKeepsAll(cfg, s, ask);
    var s1 := Run(cfg, s, ask);
    InsideSizes(cfg, s1);
    var s2 := PassNode(cfg, s1, 0, |cfg.sources|);
    LeadsKeeps(cfg, s1, s2);
    InsideSizes(cfg, s2);
    AskedStop(cfg, s, s1, s2);
    var more := LeadsSteps(cfg, s1, s2);
    RunConcat(cfg, s, ask, more);
    RunLater(cfg, s, ask + more);
    StillNoneWaiting(cfg, s, s2);
    var s3 := EndStopped(cfg, s2);
    var rest := LeadsSteps(cfg, s2, s3);
    RunConcat(cfg, s, ask + more, rest);
    EndsBy(cfg, s, ask + more + rest);
  }

  lemma RunLast(cfg: Config, s: Sys, steps: seq<Step>, step: Step)
    requires cfg.Valid() && Sized(cfg, s)
    ensures Run(cfg, s, steps + [step]) == Apply(cfg, Run(cfg, s, steps), step)
    ensures Run(cfg, s, []) == s
  {
    hide Apply, Sized;
    assert (steps + [step])[..|steps|] == steps;
  }

  lemma LeadsSteps(cfg: Config, s: Sys, s': Sys) returns (steps: seq<Step>)
    requires Leads(cfg, s, s')
    ensures cfg.Valid() && Sized(cfg, s) && Run(cfg, s, steps) == s'
  {
    hide Run, Sized;
    steps :| Calm(steps) && Run(cfg, s, steps) == s';
  }

  /** After the request and a round trip at that compute node no input sends any more. */
  lemma AskedStop(cfg: Config, s: Sys, s1: Sys, s2: Sys)
    requires SysInv(cfg, s) && Flags(cfg, s) && SysInv(cfg, s1) && Flags(cfg, s1) && SysInv(cfg, s2)
    requires cfg.Valid() && Sized(cfg, s) && s1 == Apply(cfg, s, AskAbort(0)) && NodeTurned(s1, s2, 0, |cfg.sources|)
    ensures AllStopped(s2) && |s2.inputs| == |s.inputs|
    ensures forall i :: 0 <= i < |s.inputs| ==>
              s2.inputs[i].finalizing == s.inputs[i].finalizing && s2.inputs[i].timeslice == s.inputs[i].timeslice
  {
    hide SysInv, NodeInv, ConnInv, Turned;
    InsideSizes(cfg, s);
    InsideSizes(cfg, s1);
    InsideSizes(cfg, s2);
    forall i | 0 <= i < |s2.inputs|
      ensures Stopped(s2.inputs[i])
    {
      assert Inside(s, i, 0) && Inside(s1, i, 0);
      assert s1.nodes[0].core.ends[i].sendMsg.requestAbort;
      assert FlagsOf(cfg, s1.inputs[i], s1.nodes[0].conns[i].snd);
      assert Heard(s1, s2, i, 0);
    }
  }

  lemma StillNoneWaiting(cfg: Config, s: Sys, s': Sys)
    requires SysInv(cfg, s) && SysInv(cfg, s') && Later(s, s') && NoneWaiting(s)
    requires Flags(cfg, s) && Flags(cfg, s')
    requires forall i :: 0 <= i < |s.inputs| == |s'.inputs| ==> s'.inputs[i].finalizing == s.inputs[i].finalizing
    ensures NoneWaiting(s') && NoneStuck(s')
  {
    hide SysInv;
    InsideSizes(cfg, s);
    InsideSizes(cfg, s');
    forall i: nat, c: nat
      ensures !Waiting(s', i, c)
    {
      if Inside(s', i, c) {
        assert Inside(s, i, c) && !Waiting(s, i, c);
        assert LaterNode(s.nodes[c], s'.nodes[c]);
        assert FlagsOf(cfg, s.inputs[i], s.nodes[c].conns[i].snd);
        assert FlagsOf(cfg, s'.inputs[i], s'.nodes[c].conns[i].snd);
        assert LaterPair(s.nodes[c].conns[i], s.nodes[c].core.ends[i], s'.nodes[c].conns[i], s'.nodes[c].core.ends[i]);
      }
    }
  }

  // ---- stuck connections are reachable -------------------------------------------------------------

  /** One input has sent and finishes without abort, another has stopped before it sent. */
  lemma ShortIsStuck(cfg: Config, s: Sys)
    requires SysInv(cfg, s) && |cfg.sources| >= 2 && Inside(s, 0, 0) && Inside(s, 1, 0)
    requires s.inputs[0].timeslice > 0 && s.inputs[1].timeslice == 0 && Stopped(s.inputs[1])
    requires s.nodes[0].conns[0].snd.finalizing && !s.nodes[0].conns[0].snd.aborting
    ensures Stuck(s, 0, 0)
  {
    hide SysInv, NodeInv, ConnInv;
    InvSized(cfg, s);
    InsideInv(cfg, s, 0, 0);
    InsideInv(cfg, s, 1, 0);
    var core := s.nodes[0].core;
    PairFacts(PairOf(s, 0, 0), core.acked, core.cw, cfg.rings[0]);
    PairFacts(PairOf(s, 1, 0), core.acked, core.cw, cfg.rings[0]);
    SentAny(cfg, s, 0);
    SentAny(cfg, s, 1);
    assert Blocks(s, 1, 0, 0);
  }

  lemma SentAny(cfg: Config, s: Sys, i: nat)
    requires SysInv(cfg, s) && Inside(s, i, 0)
    ensures |s.nodes[0].conns[i].sent| > 0 <==> s.inputs[i].timeslice > 0
  {
    hide NodeInv, InputInv, Carries, AckedTs;
    InsideSizes(cfg, s);
    var n := |s.nodes|;
    assert Linked(s.inputs[i], s.nodes[0].conns[i], cfg.sources[i], cfg.sl, 0, n);
    assert TsAt(0, 0, n) == 0;
  }

  /** Input 0 sends its only timeslice, settles and finishes; input 1 sends nothing. */
  lemma OneFinishes(cfg: Config, s0: Sys) returns (s: Sys)
    requires cfg.Valid() && Roomy(cfg) && Init(cfg, s0) && |cfg.sources| >= 2 && cfg.maxTimeslices == 1
    ensures Leads(cfg, s0, s) && SysInv(cfg, s) && Flags(cfg, s) && Inside(s, 0, 0) && Inside(s, 1, 0)
    ensures s.inputs[0].timeslice == 1 && s.inputs[1].timeslice == 0
    ensures s.nodes[0].conns[0].snd.finalizing && !s.nodes[0].conns[0].snd.aborting
  {
    hide SysInv, Flags, Unasked, Leads, Roomy, Settled, NodeInv, ConnInv, FinalizeConn;
    InitInv(cfg, s0);
    InitFlags(cfg, s0);
    var s1 := Settle(cfg, s0);
    InsideSizes(cfg, s0);
    InsideSizes(cfg, s1);
    var s2 := SendSlowest(cfg, s1, 0);
    LeadsKeeps(cfg, s1, s2);
    var s3 := Settle(cfg, s2);
    InsideSizes(cfg, s3);
    forall c | 0 <= c < |cfg.rings|
      ensures Inside(s3, 0, c) && NothingOpen(s3, 0, c)
    {
      SettledOpen(s3, 0, c);
    }
    s := FinishAt(cfg, s3, 0);
    LeadsKeeps(cfg, s3, s);
    InsideSizes(cfg, s);
    UnaskedNoneAborts(cfg, s);
    FlagsAt(cfg, s, 0, 0);
    LeadsOn(cfg, s0, s1, s2);
    LeadsOn(cfg, s0, s2, s3);
    LeadsOn(cfg, s0, s3, s);
  }

  lemma FlagsAt(cfg: Config, s: Sys, i: nat, c: nat)
    requires Flags(cfg, s) && Inside(s, i, c)
    ensures FlagsOf(cfg, s.inputs[i], s.nodes[c].conns[i].snd)
  {
  }

  /** With two inputs and one timeslice: when one input has sent and finishes, and then an abort
      is asked for, that input waits for ever.  So not every reachable state can end. */
  lemma StuckReachable(cfg: Config, s0: Sys) returns (steps: seq<Step>)
    requires cfg.Valid() && Roomy(cfg) && Init(cfg, s0) && |cfg.sources| >= 2 && cfg.maxTimeslices == 1
    ensures Stuck(Run(cfg, s0, steps), 0, 0) && !CanEnd(cfg, Run(cfg, s0, steps))
  {
    hide SysInv, Flags, Leads, Roomy, NodeInv, ConnInv, Apply, Run, Later, Stuck, CanEnd, NodeTurned, Sized;
    var s := OneFinishes(cfg, s0);
    InvSized(cfg, s);
    InsideSizes(cfg, s);
    var ask := [AskAbort(0)];
    assert [] + ask == ask;
    RunLast(cfg, s, [], AskAbort(0));
    RunKeepsAll(cfg, s, ask);
    var s1 := Run(cfg, s, ask);
    var s2 := PassNode(cfg, s1, 0, |cfg.sources|);
    InsideSizes(cfg, s2);
    AskedStop(cfg, s, s1, s2);
    var first := LeadsSteps(cfg, s0, s);
    var more := LeadsSteps(cfg, s1, s2);
    RunConcat(cfg, s, ask, more);
    RunLater(cfg, s, ask + more);
    LaterFinishing(s, s2);
    ShortIsStuck(cfg, s2);
    StuckCannotEnd(cfg, s2, 0, 0);
    RunConcat(cfg, s0, first, ask + more);
    steps := first + (ask + more);
  }

  lemma LaterFinishing(s: Sys, s': Sys)
    requires Later(s, s') && Inside(s, 0, 0) && Inside(s', 0, 0) && s.nodes[0].conns[0].snd.finalizing
    ensures s'.nodes[0].conns[0].snd.finalizing && s'.nodes[0].conns[0].snd.aborting == s.nodes[0].conns[0].snd.aborting
  {
    assert LaterNode(s.nodes[0], s'.nodes[0]);
  }
}
