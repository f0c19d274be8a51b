/** One compute node with all its connections. */
module ComputeNode {
  import opened Wire
  import opened Reorder
  import opened Connection
  import opened TimesliceBuilder
  import CN = ComputeNodeConnection

  datatype Node = Node(core: Core, conns: seq<Conn>)

  /** Work items are out exactly for the positions that are written and not completed. */
  ghost predicate WorkInv(c: Core)
  {
    && c.acked <= c.cw
    && (forall p :: p in c.done ==> c.acked < p < c.cw)
    && (forall p :: p in c.outstanding <==> c.acked <= p < c.cw && p !in c.done)
  }

  /** The red lantern is the slowest input as long as everyone is connected; an input that
      left without abort stays the slowest one for ever. */
  ghost predicate Slowest(c: Core)
  {
    && c.redLantern < |c.ends|
    && (c.disconnected == {} ==> c.ends[c.redLantern].cnWp.desc == c.cw)
    && (forall i :: i in c.disconnected ==>
          && i < |c.ends|
          && (!c.ends[i].recvMsg.abort ==> c.ends[i].cnWp.desc == c.cw))
  }

  /** Exactly one work item per written position, in increasing order. */
  ghost predicate ItemsInv(items: seq<WorkItem>, cw: nat, sent0: seq<Component>)
  {
    && |items| == cw <= |sent0|
    && forall p :: 0 <= p < cw ==> items[p] == WorkItem(sent0[p].tsNum, p)
  }

  ghost predicate AllConns(n: Node, r: Rings)
  {
    && |n.core.ends| == |n.conns|
    && forall i :: 0 <= i < |n.conns| ==> ConnInv(n.conns[i], n.core.ends[i], n.core.acked, n.core.cw, r)
  }

  ghost predicate Left(n: Node)
  {
    forall i :: i in n.core.disconnected ==> i < |n.conns| && n.conns[i].snd.done
  }

  ghost predicate NodeInv(n: Node, r: Rings)
  {
    && |n.conns| > 0
    && AllConns(n, r)
    && WorkInv(n.core)
    && Slowest(n.core)
    && Left(n)
    && ItemsInv(n.core.items, n.core.cw, n.conns[0].sent)
  }

  // ---- steps -------------------------------------------------------------------------

  /** Some step of connection `i` that the builder does not take part in. */
  function WithConn(n: Node, i: nat, c: Conn): (n': Node)
    requires i < |n.conns|
  {
    n.(conns := n.conns[i := c])
  }

  function HandleStatus(n: Node, i: nat): (n': Node)
  {
    if i < |n.conns| == |n.core.ends| && n.conns[i].arrived.Some? && |n.conns[0].desc| > 0 then
      var core := ReceiveStatus(n.core, i, n.conns[i].arrived.value, n.conns[0].desc);
      Node(core, n.conns[i := Reply(n.conns[i], core.ends[i].sendMsg)])
    else
      n
  }

  function DescRings(n: Node): (rings: seq<seq<Descriptor>>)
  {
    seq(|n.conns|, j requires 0 <= j < |n.conns| => n.conns[j].desc)
  }

  /** A worker completes an outstanding item. */
  ghost function HandleCompletion(n: Node, pos: nat): (n': Node)
  {
    if pos in n.core.outstanding && |n.conns| == |n.core.ends|
       && (forall j :: 0 <= j < |n.conns| ==> |n.conns[j].desc| > 0) then
      n.(core := CompleteItem(n.core, pos, DescRings(n)))
    else
      n
  }

  function HandleFinalSent(n: Node, i: nat): (n': Node)
  {
    if i < |n.core.ends| && n.core.ends[i].sendMsg.final then n.(core := FinalizeSent(n.core, i)) else n
  }

  function HandleAbortRequest(n: Node): (n': Node)
  {
    n.(core := RequestAbort(n.core))
  }

  /** The input node closes a connection it is done with. */
  function HandleDisconnect(n: Node, i: nat): (n': Node)
  {
    if i < |n.conns| && n.conns[i].snd.done then
      n.(core := n.core.(disconnected := n.core.disconnected + {i}))
    else
      n
  }

  // ---- every step keeps the invariant -------------------------------------------------

  lemma WithConnKeeps(n: Node, i: nat, c: Conn, r: Rings)
    requires NodeInv(n, r) && i < |n.conns|
    requires ConnInv(c, n.core.ends[i], n.core.acked, n.core.cw, r)
    requires n.conns[i].sent <= c.sent
    requires n.conns[i].snd.done ==> c.snd.done
    ensures NodeInv(WithConn(n, i, c), r)
  {
    hide ConnInv;
  }

  lemma HandleStatusKeeps(n: Node, i: nat, r: Rings)
    requires NodeInv(n, r)
    ensures NodeInv(HandleStatus(n, i), r)
  {
    hide ConnInv;
    if i < |n.conns| && n.conns[i].arrived.Some? {
      var n' := HandleStatus(n, i);
      ConnFacts(n.conns[0], n.core.ends[0], n.core.acked, n.core.cw, r);
      var mid := Answered(n, i, r);
      if n.core.disconnected == {} && i == n.core.redLantern {
        NewWrittenKeeps(n, mid, n', MinElement(mid.core.ends, |mid.core.ends|), r);
      }
    }
  }

  /** The connection part of handling a status message. */
  lemma Answered(n: Node, i: nat, r: Rings) returns (mid: Node)
    requires NodeInv(n, r)
    requires i < |n.conns| && n.conns[i].arrived.Some?
    ensures var e' := CN.ReceiveStatus(n.core.ends[i], n.conns[i].arrived.value);
            mid == Node(n.core.(ends := n.core.ends[i := e']), n.conns[i := Reply(n.conns[i], e'.sendMsg)])
    ensures AllConns(mid, r) && Left(mid)
    ensures n.core.disconnected != {} || i != n.core.redLantern ==> NodeInv(mid, r)
  {
    hide ConnInv;
    var e' := CN.ReceiveStatus(n.core.ends[i], n.conns[i].arrived.value);
    mid := Node(n.core.(ends := n.core.ends[i := e']), n.conns[i := Reply(n.conns[i], e'.sendMsg)]);
    ReplyKeeps(n.conns[i], n.core.ends[i], n.core.acked, n.core.cw, r);
    ConnFacts(n.conns[i], n.core.ends[i], n.core.acked, n.core.cw, r);
    assert i !in n.core.disconnected;
  }

  /** The red lantern moved: every position below the new minimum is complete. */
  lemma NewWrittenKeeps(n: Node, mid: Node, n': Node, k: nat, r: Rings)
    requires NodeInv(n, r) && n.core.disconnected == {}
    requires AllConns(mid, r) && |mid.conns| == |n.conns|
    requires mid.core == n.core.(ends := mid.core.ends)
    requires mid.conns[0].desc == n.conns[0].desc && mid.conns[0].sent == n.conns[0].sent
    requires k == MinElement(mid.core.ends, |mid.core.ends|)
    requires var cw' := mid.core.ends[k].cnWp.desc;
             && |n.conns[0].desc| > 0
             && n'.conns == mid.conns
             && n'.core == mid.core.(redLantern := k, cw := cw',
                  outstanding := n.core.outstanding + Positions(n.core.cw, cw'),
                  items := n.core.items + ItemsFor(n.conns[0].desc, n.core.cw, cw'))
    ensures NodeInv(n', r)
  {
    hide ConnInv;
    var cw' := mid.core.ends[k].cnWp.desc;
    ConnFacts(mid.conns[k], mid.core.ends[k], mid.core.acked, mid.core.cw, r);
    RaiseWritten(mid, n', cw', r);
    ConnFacts(mid.conns[0], mid.core.ends[0], n.core.acked, n.core.cw, r);
    ItemsCorrect(mid.conns[0], mid.core.ends[0], n.core.acked, n.core.cw, cw', r);
    ItemsExtend(n.core.items, n.core.cw, ItemsFor(n.conns[0].desc, n.core.cw, cw'), cw', n.conns[0].sent);
  }

  lemma RaiseWritten(mid: Node, n': Node, cw': nat, r: Rings)
    requires AllConns(mid, r) && n'.conns == mid.conns
    requires n'.core.ends == mid.core.ends && n'.core.acked == mid.core.acked && n'.core.cw == cw' >= mid.core.cw
    requires forall j :: 0 <= j < |mid.core.ends| ==> cw' <= mid.core.ends[j].cnWp.desc
    ensures AllConns(n', r)
  {
    hide ConnInv;
    forall j | 0 <= j < |n'.conns|
      ensures ConnInv(n'.conns[j], n'.core.ends[j], n'.core.acked, cw', r)
    {
      WrittenKeeps(mid.conns[j], mid.core.ends[j], mid.core.acked, mid.core.cw, cw', r);
    }
  }

  lemma ItemsExtend(items: seq<WorkItem>, cw: nat, more: seq<WorkItem>, cw': nat, sent0: seq<Component>)
    requires ItemsInv(items, cw, sent0) && cw <= cw' <= |sent0|
    requires |more| == cw' - cw && forall k :: 0 <= k < cw' - cw ==> more[k] == WorkItem(sent0[cw + k].tsNum, cw + k)
    ensures ItemsInv(items + more, cw', sent0)
  {
  }

  /** The index in a work item is the timeslice number that input 0 sent for that position. */
  lemma {:induction false} ItemsCorrect(c: Conn, e: NodeEnd, acked: nat, cw: nat, top: nat, r: Rings)
    requires ConnInv(c, e, acked, cw, r)
    requires cw <= top <= e.cnWp.desc
    ensures |c.desc| > 0
    ensures var items := ItemsFor(c.desc, cw, top);
            |items| == top - cw && forall k :: 0 <= k < top - cw ==> items[k] == WorkItem(c.sent[cw + k].tsNum, cw + k)
    decreases top
  {
    if cw < top {
      ItemsCorrect(c, e, acked, cw, top - 1, r);
      assert SlotHolds(c.desc, c.sent, top - 1);
    }
  }

  /** The window of outstanding work never exceeds the descriptor ring. */
  lemma WindowFits(n: Node, r: Rings)
    requires NodeInv(n, r)
    ensures n.core.cw <= n.core.acked + r.DescSize()
  {
    hide ConnInv;
    ConnFacts(n.conns[0], n.core.ends[0], n.core.acked, n.core.cw, r);
  }

  lemma HandleCompletionKeeps(n: Node, pos: nat, r: Rings)
    requires NodeInv(n, r)
    ensures NodeInv(HandleCompletion(n, pos), r)
  {
    hide ConnInv;
    forall j | 0 <= j < |n.conns|
      ensures |n.conns[j].desc| > 0
    {
      ConnFacts(n.conns[j], n.core.ends[j], n.core.acked, n.core.cw, r);
    }
    if pos in n.core.outstanding {
      CompletedWork(n.core, pos);
      if pos == n.core.acked {
        AckAllKeeps(n, HandleCompletion(n, pos), CompleteAcked(n.core.acked, n.core.done, pos), r);
      }
    }
  }

  lemma AckAllKeeps(n: Node, n': Node, acked': nat, r: Rings)
    requires AllConns(n, r)
    requires n.core.acked < acked' <= n.core.cw
    requires forall j :: 0 <= j < |n.conns| ==> |n.conns[j].desc| > 0
    requires n'.conns == n.conns
    requires n'.core == n.core.(acked := acked', done := n'.core.done, outstanding := n'.core.outstanding,
                                ends := AckAll(n.core.ends, DescRings(n), acked'))
    ensures AllConns(n', r)
    ensures forall j :: 0 <= j < |n.conns| ==>
      n'.core.ends[j].cnWp == n.core.ends[j].cnWp && n'.core.ends[j].recvMsg == n.core.ends[j].recvMsg
  {
    hide ConnInv;
    forall j | 0 <= j < |n.conns|
      ensures ConnInv(n'.conns[j], n'.core.ends[j], acked', n'.core.cw, r)
    {
      AckKeeps(n.conns[j], n.core.ends[j], n.core.acked, acked', n.core.cw, r);
    }
  }

  /** Completing an outstanding item never carries the acknowledge index past what is written. */
  lemma CompletedWork(c: Core, pos: nat)
    requires WorkInv(c) && pos in c.outstanding
    ensures var acked', done' := CompleteAcked(c.acked, c.done, pos), CompleteDone(c.acked, c.done, pos);
            && acked' <= c.cw && (pos == c.acked ==> c.acked < acked')
            && (forall p :: p in done' ==> acked' < p < c.cw)
            && (forall p :: p in c.outstanding && p != pos <==> acked' <= p < c.cw && p !in done')
  {
    CompleteRefinesSet(c.acked, c.done, pos);
    var acked', done' := CompleteAcked(c.acked, c.done, pos), CompleteDone(c.acked, c.done, pos);
    assert c.cw !in Completed(c.acked, c.done) + iset{pos};
    forall p: nat
      ensures p in c.outstanding && p != pos <==> acked' <= p < c.cw && p !in done'
    {
      assert p in Completed(acked', done') <==> p in Completed(c.acked, c.done) + iset{pos};
    }
  }

  lemma HandleFinalSentKeeps(n: Node, i: nat, r: Rings)
    requires NodeInv(n, r)
    ensures NodeInv(HandleFinalSent(n, i), r)
  {
    hide ConnInv;
    if i < |n.core.ends| {
      MarksKeep(n.conns[i], n.core.ends[i], n.core.acked, n.core.cw, r);
    }
  }

  lemma HandleAbortRequestKeeps(n: Node, r: Rings)
    requires NodeInv(n, r)
    ensures NodeInv(HandleAbortRequest(n), r)
  {
    hide ConnInv;
    var n' := HandleAbortRequest(n);
    forall j | 0 <= j < |n.conns|
      ensures ConnInv(n'.conns[j], n'.core.ends[j], n'.core.acked, n'.core.cw, r)
    {
      MarksKeep(n.conns[j], n.core.ends[j], n.core.acked, n.core.cw, r);
    }
  }

  lemma HandleDisconnectKeeps(n: Node, i: nat, r: Rings)
    requires NodeInv(n, r)
    ensures NodeInv(HandleDisconnect(n, i), r)
  {
    hide ConnInv;
    if i < |n.conns| && n.conns[i].snd.done {
      ConnFacts(n.conns[i], n.core.ends[i], n.core.acked, n.core.cw, r);
      if !n.core.ends[i].recvMsg.abort {
        FinalMeansAcked(n.conns[i], n.core.ends[i], n.core.acked, n.core.cw, r);
      }
    }
  }

  // ---- what the invariant gives ------------------------------------------------------

  /** The position up to which everything is written is the minimum of the received write
      pointers, unless an aborting input has already left. */
  lemma WrittenIsMinimum(n: Node, r: Rings)
    requires NodeInv(n, r)
    ensures forall i :: 0 <= i < |n.core.ends| ==> n.core.cw <= n.core.ends[i].cnWp.desc
    ensures (forall i :: i in n.core.disconnected && i < |n.core.ends| ==> !n.core.ends[i].recvMsg.abort) ==>
            exists i :: 0 <= i < |n.core.ends| && n.core.ends[i].cnWp.desc == n.core.cw
  {
    hide ConnInv;
    forall i | 0 <= i < |n.core.ends|
      ensures n.core.cw <= n.core.ends[i].cnWp.desc
    {
      ConnFacts(n.conns[i], n.core.ends[i], n.core.acked, n.core.cw, r);
    }
    if n.core.disconnected != {} {
      var i :| i in n.core.disconnected;
      assert i < |n.core.ends|;
    }
  }

  /** When the final message of an input that did not abort has been answered, no work item
      is outstanding: the assertions in the finalize handler hold. */
  lemma FinalizeFindsNoWork(n: Node, i: nat, r: Rings)
    requires NodeInv(n, r) && i < |n.core.ends|
    requires n.core.ends[i].sendMsg.final && !n.core.ends[i].recvMsg.abort
    ensures n.core.outstanding == {}
  {
    hide ConnInv;
    ConnFacts(n.conns[i], n.core.ends[i], n.core.acked, n.core.cw, r);
    FinalMeansAcked(n.conns[i], n.core.ends[i], n.core.acked, n.core.cw, r);
  }

  /** Every component of every outstanding position is intact and no write in flight on any
      connection touches it. */
  lemma OutstandingIntact(n: Node, p: nat, i: nat, r: Rings)
    requires NodeInv(n, r) && i < |n.conns| && n.core.acked <= p < n.core.cw
    ensures SlotHolds(n.conns[i].desc, n.conns[i].sent, p) && BytesHold(n.conns[i].data, n.conns[i].sent, p)
    ensures forall k :: 0 <= k < |n.conns[i].toNode| ==> Clear(n.conns[i], k, p, r)
  {
    var c := n.conns[i];
    assert ConnInv(c, n.core.ends[i], n.core.acked, n.core.cw, r);
    forall k | 0 <= k < |c.toNode|
      ensures Clear(c, k, p, r)
    {
      NoWriteTouches(c, n.core.ends[i], n.core.acked, n.core.cw, r, p, k);
    }
  }

  /** Packet `k` in flight writes neither the descriptor slot nor the bytes of position `p`. */
  ghost predicate Clear(c: Conn, k: nat, p: nat, r: Rings)
    requires k < |c.toNode| && p < |c.sent|
  {
    && (c.toNode[k].DescWrite? ==> c.toNode[k].slot != p % r.DescSize())
    && (c.toNode[k].DataWrite? ==>
          var at := c.sent[p].offset % r.DataSize();
          at + |c.sent[p].payload| <= c.toNode[k].addr || c.toNode[k].addr + |c.toNode[k].bytes| <= at)
  }
}
