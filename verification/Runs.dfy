/** What holds in every state of every run of the distributed timeslice building protocol. */
module Runs {
  import opened Wire
  import opened InputChannelSender
  import opened Connection
  import opened ComputeNode
  import opened System
  import opened SystemProofs
  import opened Timeslices
  import TB = TimesliceBuilder

  ghost predicate Reachable(cfg: Config, s: Sys)
  {
    cfg.Valid() && exists s0, steps :: Init(cfg, s0) && Run(cfg, s0, steps) == s
  }

  lemma ReachableInv(cfg: Config, s: Sys)
    requires Reachable(cfg, s)
    ensures SysInv(cfg, s)
  {
    var s0, steps :| Init(cfg, s0) && Run(cfg, s0, steps) == s;
    RunKeeps(cfg, s0, steps);
  }

  /** Position `p` of input `i` at compute node `c` out of `n` is timeslice `p * n + c`.  Its
      descriptor says so, and its bytes in the node's memory are, unwrapped and exactly as the
      data source delivered them, the descriptors and contents of the `size + overlap` microslices
      that belong to it.  Nothing in flight is going to touch them. */
  ghost predicate Delivered(cfg: Config, s: Sys, c: nat, i: nat, p: nat)
    requires cfg.Valid() && Sized(cfg, s) && c < |s.nodes| && i < |s.inputs|
  {
    var conn, src, sl := s.nodes[c].conns[i], cfg.sources[i], cfg.sl;
    var ts := p * |s.nodes| + c;
    && p < |conn.sent| && |conn.desc| > 0 && |conn.data| > 0
    && var d := conn.desc[p % |conn.desc|];
       var at := d.offset % |conn.data|;
       && d.tsNum == ts && d.numMicroslices == sl.size + sl.overlap
       && at + d.size <= |conn.data|
       && ConsistsOf(conn.data[at..at + d.size], src, ts * sl.size + src.startDesc, sl.size + sl.overlap)
       && (forall k :: 0 <= k < |conn.toNode| ==> Clear(conn, k, p, cfg.rings[c]))
  }

  /** In every reachable state every component of every timeslice that is completely written
      and not acknowledged is intact. */
  lemma NothingOverwritten(cfg: Config, s: Sys, c: nat, i: nat, p: nat)
    requires Reachable(cfg, s) && c < |s.nodes| && i < |s.inputs|
    requires Sized(cfg, s) && s.nodes[c].core.acked <= p < s.nodes[c].core.cw
    ensures Delivered(cfg, s, c, i, p)
  {
    hide NodeInv, Linked, InputInv, ConnInv, Payload, Carries, Clear, SlotHolds, BytesHold, Delivered;
    ReachableInv(cfg, s);
    OutstandingIntact(s.nodes[c], p, i, cfg.rings[c]);
    NodeParts(s.nodes[c], i, cfg.rings[c]);
    ConnFacts(s.nodes[c].conns[i], s.nodes[c].core.ends[i], s.nodes[c].core.acked, s.nodes[c].core.cw, cfg.rings[c]);
    LinkedCarries(s.inputs[i], s.nodes[c].conns[i], cfg.sources[i], cfg.sl, c, |s.nodes|, p);
    DeliveredFrom(cfg, s, c, i, p);
  }

  lemma DeliveredFrom(cfg: Config, s: Sys, c: nat, i: nat, p: nat)
    requires cfg.Valid() && Sized(cfg, s) && c < |s.nodes| && i < |s.inputs|
    requires p < |s.nodes[c].conns[i].sent|
    requires Carries(s.nodes[c].conns[i].sent[p], cfg.sources[i], cfg.sl, TsAt(p, c, |s.nodes|))
    requires SlotHolds(s.nodes[c].conns[i].desc, s.nodes[c].conns[i].sent, p)
    requires BytesHold(s.nodes[c].conns[i].data, s.nodes[c].conns[i].sent, p)
    requires forall k :: 0 <= k < |s.nodes[c].conns[i].toNode| ==> Clear(s.nodes[c].conns[i], k, p, cfg.rings[c])
    ensures Delivered(cfg, s, c, i, p)
  {
    hide Payload, Clear, ConsistsOf;
    PayloadIs(cfg.sources[i], cfg.sl, TsAt(p, c, |s.nodes|));
  }

  /** One position lies at or before another, in both rings. */
  predicate Before(p: Position, q: Position) { p.desc <= q.desc && p.data <= q.data }

  /** The chain of pointers of one connection, with the messages in flight, and the bounds
      that keep both rings from being overrun. */
  ghost predicate PointerChain(conn: Conn, e: NodeEnd, acked: nat, cw: nat, r: Rings)
  {
    && (forall k :: 0 <= k < |conn.toInput| ==>
          Before(conn.snd.cnAck, conn.toInput[k].ack) && Before(conn.toInput[k].ack, e.cnAck))
    && Before(conn.snd.cnAck, e.cnAck) && e.cnAck.desc == acked <= cw <= e.cnWp.desc && Before(e.cnAck, e.cnWp)
    && (conn.arrived.Some? && !conn.arrived.value.final ==>
          Before(e.cnWp, conn.arrived.value.wp) && Before(conn.arrived.value.wp, conn.snd.cnWp))
    && (forall k :: 0 <= k < |conn.toNode| && conn.toNode[k].Status? && !conn.toNode[k].msg.final ==>
          Before(e.cnWp, conn.toNode[k].msg.wp) && Before(conn.toNode[k].msg.wp, conn.snd.cnWp))
    && Before(e.cnWp, conn.snd.cnWp)
    && conn.snd.cnWp.desc <= conn.snd.cnAck.desc + r.DescSize()
    && conn.snd.cnWp.data <= conn.snd.cnAck.data + r.DataSize()
  }

  lemma ChainHolds(cfg: Config, s: Sys, c: nat, i: nat)
    requires Reachable(cfg, s) && c < |s.nodes| && i < |s.inputs| && Sized(cfg, s)
    ensures PointerChain(s.nodes[c].conns[i], s.nodes[c].core.ends[i], s.nodes[c].core.acked, s.nodes[c].core.cw,
                         cfg.rings[c])
  {
    ReachableInv(cfg, s);
    assert NodeInv(s.nodes[c], cfg.rings[c]);
    NodeParts(s.nodes[c], i, cfg.rings[c]);
    hide NodeInv, Linked, InputInv;
    ConnChain(s.nodes[c].conns[i], s.nodes[c].core.ends[i], s.nodes[c].core.acked, s.nodes[c].core.cw, cfg.rings[c]);
  }

  lemma ConnChain(conn: Conn, e: NodeEnd, acked: nat, cw: nat, r: Rings)
    requires ConnInv(conn, e, acked, cw, r)
    ensures PointerChain(conn, e, acked, cw, r)
  {
    WpOrder(conn.sent, conn.snd.cnAck, e.sendMsg.ack);
    WpOrder(conn.sent, e.sendMsg.ack, e.cnAck);
    WpOrder(conn.sent, e.cnAck, e.cnWp);
    WpOrder(conn.sent, e.cnWp, conn.snd.cnWp);
    if conn.arrived.Some? && !conn.arrived.value.final {
      WpOrder(conn.sent, e.cnWp, conn.arrived.value.wp);
      WpOrder(conn.sent, conn.arrived.value.wp, conn.snd.cnWp);
    }
    forall k | 0 <= k < |conn.toNode| && conn.toNode[k].Status? && !conn.toNode[k].msg.final
      ensures Before(e.cnWp, conn.toNode[k].msg.wp) && Before(conn.toNode[k].msg.wp, conn.snd.cnWp)
    {
      StatusInPlace(conn.toNode, conn.sent, conn.landedDesc, conn.landedData > conn.landedDesc, r, k);
      WpOrder(conn.sent, e.cnWp, conn.toNode[k].msg.wp);
      WpOrder(conn.sent, conn.toNode[k].msg.wp, conn.snd.cnWp);
    }
  }

  lemma WpOrder(sent: seq<Component>, p: Position, q: Position)
    requires Ordered(sent) && IsWp(sent, p) && IsWp(sent, q) && p.desc <= q.desc
    ensures Before(p, q)
  {
    WpMonotone(sent, p.desc, q.desc);
  }

  /** A status message in flight carries write pointers between what has landed and what is sent. */
  lemma {:induction false} StatusInPlace(ps: seq<Packet>, sent: seq<Component>, next: nat, half: bool, r: Rings, k: nat)
    requires InFlight(ps, sent, next, half, r)
    requires k < |ps| && ps[k].Status? && !ps[k].msg.final
    ensures next <= ps[k].msg.wp.desc <= |sent| && IsWp(sent, ps[k].msg.wp)
    decreases |ps|
  {
    if k > 0 {
      assert ps[k] == ps[1..][k - 1];
      if half {
        StatusInPlace(ps[1..], sent, next + 1, false, r, k - 1);
      } else if ps[0].Status? {
        StatusInPlace(ps[1..], sent, next, false, r, k - 1);
      } else {
        StatusInPlace(ps[1..], sent, next, true, r, k - 1);
      }
    }
  }

  /** Each connection has exactly one token, and the token can always move on until the
      connection is done. */
  lemma TokenMoves(cfg: Config, s: Sys, c: nat, i: nat)
    requires Reachable(cfg, s) && c < |s.nodes| && i < |s.inputs| && Sized(cfg, s)
    ensures Token(s.nodes[c].conns[i])
    ensures var conn := s.nodes[c].conns[i];
            || conn.snd.done || conn.arrived.Some?
            || Sync(conn) != conn || Land(conn) != conn || ReceiveReply(conn) != conn
  {
    ReachableInv(cfg, s);
    assert NodeInv(s.nodes[c], cfg.rings[c]);
    NodeParts(s.nodes[c], i, cfg.rings[c]);
    hide NodeInv, Linked, InputInv;
    var conn := s.nodes[c].conns[i];
    LandKeeps(conn, s.nodes[c].core.ends[i], s.nodes[c].core.acked, s.nodes[c].core.cw, cfg.rings[c]);
    if |conn.toNode| > 0 {
      assert |Land(conn).toNode| < |conn.toNode|;
    } else if |conn.toInput| > 0 {
      assert |ReceiveReply(conn).toInput| < |conn.toInput|;
    }
  }

  /** Whenever a compute node may report its final message sent to an input that did not
      abort, no work item is outstanding. */
  lemma FinalizeIsClean(cfg: Config, s: Sys, c: nat, i: nat)
    requires Reachable(cfg, s) && c < |s.nodes| && i < |s.inputs| && Sized(cfg, s)
    requires s.nodes[c].core.ends[i].sendMsg.final && !s.nodes[c].core.ends[i].recvMsg.abort
    ensures s.nodes[c].core.outstanding == {}
  {
    ReachableInv(cfg, s);
    FinalizeFindsNoWork(s.nodes[c], i, cfg.rings[c]);
  }

  /** Work items go out once each, in increasing position, with the right timeslice number,
      and exactly up to the slowest input. */
  lemma WorkItemsInOrder(cfg: Config, s: Sys, c: nat)
    requires Reachable(cfg, s) && c < |s.nodes| && Sized(cfg, s)
    ensures var core := s.nodes[c].core;
            && |core.items| == core.cw
            && (forall p :: 0 <= p < core.cw ==> core.items[p] == TB.WorkItem(p * |s.nodes| + c, p))
            && (forall i :: 0 <= i < |core.ends| ==> core.cw <= core.ends[i].cnWp.desc)
            && ((forall i :: i in core.disconnected && i < |core.ends| ==> !core.ends[i].recvMsg.abort) ==>
                  exists i :: 0 <= i < |core.ends| && core.ends[i].cnWp.desc == core.cw)
  {
    hide SysInv, ConnInv, NodeInv;
    ReachableInv(cfg, s);
    SizedInv(cfg, s, c);
    WrittenIsMinimum(s.nodes[c], cfg.rings[c]);
    forall p | 0 <= p < s.nodes[c].core.cw
      ensures p < |s.nodes[c].core.items| && s.nodes[c].core.items[p] == TB.WorkItem(p * |s.nodes| + c, p)
    {
      ItemIs(cfg, s, c, p);
    }
  }

  lemma SizedInv(cfg: Config, s: Sys, c: nat)
    requires SysInv(cfg, s) && c < |s.nodes|
    ensures |s.nodes| == |cfg.rings| && NodeInv(s.nodes[c], cfg.rings[c])
    ensures |s.nodes[c].core.items| == s.nodes[c].core.cw
  {
    hide ConnInv, InputInv, Linked, Slowest, WorkInv;
  }

  lemma ItemIs(cfg: Config, s: Sys, c: nat, p: nat)
    requires SysInv(cfg, s) && c < |s.nodes| && p < s.nodes[c].core.cw
    ensures p < |s.nodes[c].core.items| && s.nodes[c].core.items[p] == TB.WorkItem(p * |s.nodes| + c, p)
  {
    hide ConnInv, InputInv, Slowest, WorkInv, Payload, AllConns, Left;
    var conn0 := s.nodes[c].conns[0];
    assert NodeInv(s.nodes[c], cfg.rings[c]);
    assert Linked(s.inputs[0], conn0, cfg.sources[0], cfg.sl, c, |s.nodes|);
    assert Carries(conn0.sent[p], cfg.sources[0], cfg.sl, TsAt(p, c, |s.nodes|));
  }

  /** While a write of a timeslice is incomplete, the data source keeps all of it. */
  lemma SourceKept(cfg: Config, s: Sys, c: nat, i: nat, p: nat)
    requires Reachable(cfg, s) && c < |s.nodes| && i < |s.inputs| && Sized(cfg, s)
    requires s.nodes[c].conns[i].polled <= p < |s.nodes[c].conns[i].sent|
    ensures var src, inp, ts := cfg.sources[i], s.inputs[i], TsAt(p, c, |s.nodes|);
            && inp.readDesc <= First(src, cfg.sl, ts)
            && inp.readData <= src.ms(First(src, cfg.sl, ts)).offset
            && Gather(src, cfg.sl, inp.written, ts) == Payload(src, cfg.sl, ts) == s.nodes[c].conns[i].sent[p].payload
  {
    ReachableInv(cfg, s);
    var src, inp, ts := cfg.sources[i], s.inputs[i], TsAt(p, c, |s.nodes|);
    assert InputInv(inp, src, cfg.sl);
    assert Linked(inp, s.nodes[c].conns[i], src, cfg.sl, c, |s.nodes|);
    hide NodeInv, ConnInv, Gather, Payload;
    assert Carries(s.nodes[c].conns[i].sent[p], src, cfg.sl, ts);
    assert !IsCompleted(AckedTs(inp, src, cfg.sl), inp.done, ts);
    hide Linked;
    ReadIndexSafe(inp, src, cfg.sl, ts);
    GatherIsPayload(src, cfg.sl, inp.written, ts);
  }
}
