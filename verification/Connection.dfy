/** One reliable connection with everything that depends on it: both ends, the packets in
    flight, and the two rings in the compute node's memory that this input writes.

    `sent`, `landedData`, `landedDesc` and `polled` are history. */
module Connection {
  import opened RingMath
  import opened Wire
  import opened InputChannelConnection
  import CN = ComputeNodeConnection

  type NodeEnd = CN.NodeEnd

  datatype Conn = Conn(
    snd: SenderEnd,
    toNode: seq<Packet>,            // posted work requests, delivered in order
    arrived: Option<InputStatus>,   // status message in the receive buffer, not yet handled
    toInput: seq<NodeStatus>,       // replies in flight
    desc: seq<Descriptor>,          // the descriptor ring in the compute node's memory
    data: seq<Byte>,                // the data ring in the compute node's memory
    sent: seq<Component>,           // everything ever sent
    landedData: nat, landedDesc: nat,
    polled: nat)                    // write completions the input node has seen

  ghost predicate IsWp(sent: seq<Component>, p: Position)
  {
    p.desc <= |sent| && p == WpAt(sent, p.desc)
  }

  // ---- what is in flight -------------------------------------------------------------

  /** The packets in flight, starting with component `next` (whose data has landed already
      if `half`), are exactly the rest of `sent` in order.  A status message carries the
      write pointers of the place where it sits. */
  ghost predicate InFlight(ps: seq<Packet>, sent: seq<Component>, next: nat, half: bool, r: Rings)
    decreases |ps|
  {
    if half then
      && next < |sent| && |ps| > 0
      && ps[0] == sent[next].DescPacket(next, r)
      && InFlight(ps[1..], sent, next + 1, false, r)
    else if |ps| == 0 then
      next == |sent|
    else
      match ps[0]
      case Status(m) =>
        && next <= |sent|
        && (!m.final ==> m.wp == WpAt(sent, next))
        && InFlight(ps[1..], sent, next, false, r)
      case DataWrite(_, _) =>
        && next < |sent|
        && ps[0] == sent[next].DataPacket(r)
        && InFlight(ps[1..], sent, next, true, r)
      case DescWrite(_, _) => false
  }

  ghost function StatusCount(ps: seq<Packet>): (n: nat)
  {
    if |ps| == 0 then 0 else (if ps[0].Status? then 1 else 0) + StatusCount(ps[1..])
  }

  lemma {:induction false} StatusCountAppend(a: seq<Packet>, b: seq<Packet>)
    ensures StatusCount(a + b) == StatusCount(a) + StatusCount(b)
  {
    if |a| == 0 {
      assert a + b == b;
    } else {
      assert (a + b)[1..] == a[1..] + b;
      StatusCountAppend(a[1..], b);
    }
  }

  lemma {:induction false} InFlightStatus(ps: seq<Packet>, sent: seq<Component>, next: nat, half: bool, r: Rings,
                                          m: InputStatus)
    requires InFlight(ps, sent, next, half, r)
    requires !m.final ==> m.wp == WpAt(sent, |sent|)
    ensures InFlight(ps + [Status(m)], sent, next, half, r)
    decreases |ps|
  {
    var ps' := ps + [Status(m)];
    if |ps| == 0 {
      assert ps'[1..] == [];
    } else {
      assert ps'[1..] == ps[1..] + [Status(m)];
      if half {
        InFlightStatus(ps[1..], sent, next + 1, false, r, m);
      } else if ps[0].Status? {
        InFlightStatus(ps[1..], sent, next, false, r, m);
      } else {
        InFlightStatus(ps[1..], sent, next, true, r, m);
      }
    }
  }

  lemma {:induction false} InFlightComponent(ps: seq<Packet>, sent: seq<Component>, next: nat, half: bool, r: Rings,
                                             c: Component)
    requires InFlight(ps, sent, next, half, r)
    ensures InFlight(ps + [c.DataPacket(r), c.DescPacket(|sent|, r)], sent + [c], next, half, r)
    decreases |ps|
  {
    var more := [c.DataPacket(r), c.DescPacket(|sent|, r)];
    var ps' := ps + more;
    if |ps| == 0 {
      assert ps' == more;
      assert ps'[1..] == [c.DescPacket(|sent|, r)];
      assert ps'[1..][1..] == [];
      assert InFlight(ps'[1..][1..], sent + [c], next + 1, false, r);
      assert InFlight(ps'[1..], sent + [c], next, true, r);
    } else {
      assert ps'[1..] == ps[1..] + more;
      if half {
        InFlightComponent(ps[1..], sent, next + 1, false, r, c);
      } else if ps[0].Status? {
        InFlightComponent(ps[1..], sent, next, false, r, c);
      } else {
        InFlightComponent(ps[1..], sent, next, true, r, c);
      }
    }
  }

  /** Every write in flight belongs to a component that has not landed. */
  lemma {:induction false} InFlightWrites(ps: seq<Packet>, sent: seq<Component>, next: nat, half: bool, r: Rings,
                                          k: nat) returns (q: nat)
    requires InFlight(ps, sent, next, half, r)
    requires k < |ps| && !ps[k].Status?
    ensures next <= q < |sent|
    ensures ps[k] == sent[q].DataPacket(r) || ps[k] == sent[q].DescPacket(q, r)
    ensures ps[k].DataWrite? && half ==> q > next
    decreases |ps|
  {
    if k == 0 {
      q := next;
    } else if half {
      q := InFlightWrites(ps[1..], sent, next + 1, false, r, k - 1);
    } else if ps[0].Status? {
      q := InFlightWrites(ps[1..], sent, next, false, r, k - 1);
    } else {
      q := InFlightWrites(ps[1..], sent, next, true, r, k - 1);
    }
  }

  // ---- the invariant -----------------------------------------------------------------

  ghost predicate History(c: Conn, r: Rings)
  {
    && |c.desc| == r.DescSize() && |c.data| == r.DataSize()
    && Ordered(c.sent) && Unwrapped(c.sent, r)
    && c.landedDesc <= c.landedData <= c.landedDesc + 1
    && c.landedData <= |c.sent|
    && c.polled <= c.landedDesc
    && c.snd.pending == |c.sent| - c.polled
    && InFlight(c.toNode, c.sent, c.landedDesc, c.landedData > c.landedDesc, r)
  }

  /** Every pointer in the protocol is a true position in the history. */
  ghost predicate Pointers(c: Conn, e: NodeEnd)
  {
    && IsWp(c.sent, c.snd.cnWp) && IsWp(c.sent, c.snd.cnAck)
    && IsWp(c.sent, e.cnWp) && IsWp(c.sent, e.cnAck) && IsWp(c.sent, e.sendMsg.ack)
    && (c.arrived.Some? && !c.arrived.value.final ==> IsWp(c.sent, c.arrived.value.wp))
  }

  /** The chain of pointers, from what the sender knows to be acknowledged to what it has sent. */
  ghost predicate Chain(c: Conn, e: NodeEnd, acked: nat, cw: nat, r: Rings)
  {
    && c.snd.cnAck.desc <= e.sendMsg.ack.desc <= e.cnAck.desc == acked
    && acked <= cw <= e.cnWp.desc <= c.landedDesc
    && (c.arrived.Some? && !c.arrived.value.final ==> e.cnWp.desc <= c.arrived.value.wp.desc <= c.landedDesc)
    && c.snd.cnWp.desc == |c.sent| <= c.snd.cnAck.desc + r.DescSize()
    && c.snd.cnWp.data <= c.snd.cnAck.data + r.DataSize()
  }

  ghost function One(b: bool): (n: nat) { if b then 1 else 0 }

  /** There is exactly one token. */
  ghost predicate Token(c: Conn)
  {
    One(c.snd.ourTurn) + StatusCount(c.toNode) + One(c.arrived.Some?) + |c.toInput| + One(c.snd.done) == 1
  }

  /** Messages in flight are what their sender last wrote, and a final one ends the exchange. */
  ghost predicate Messages(c: Conn, e: NodeEnd)
  {
    && (forall k :: 0 <= k < |c.toNode| && c.toNode[k].Status? ==> c.toNode[k].msg == c.snd.sendMsg)
    && (c.arrived.Some? ==> c.arrived.value == c.snd.sendMsg)
    && (forall k :: 0 <= k < |c.toInput| ==>
          && c.toInput[k].ack == e.sendMsg.ack && c.toInput[k].final == e.sendMsg.final
          && c.snd.sendMsg.final == e.sendMsg.final)
    && (c.snd.sendMsg.final ==>
          && c.snd.finalizing && !c.snd.ourTurn && c.snd.sendMsg.abort == c.snd.aborting
          && (c.snd.sendMsg.abort || c.snd.cnWp == c.snd.cnAck))
    && (e.sendMsg.final ==> c.snd.sendMsg.final && e.recvMsg == c.snd.sendMsg)
    && (c.snd.done ==> e.sendMsg.final)
    && (e.done ==> e.sendMsg.final)
  }

  /** Everything landed and not yet known by the sender to be acknowledged is intact. */
  ghost predicate Memory(c: Conn)
  {
    && (forall p :: c.snd.cnAck.desc <= p < c.landedDesc ==> SlotHolds(c.desc, c.sent, p))
    && (forall p :: c.snd.cnAck.desc <= p < c.landedData ==> BytesHold(c.data, c.sent, p))
  }

  /** When no status message is on its way to the compute node, or the last one was final,
      the compute node knows the write pointers that were posted last. */
  ghost predicate Told(c: Conn, e: NodeEnd)
  {
    c.snd.sendMsg.final || (StatusCount(c.toNode) == 0 && c.arrived.None?) ==> e.cnWp == c.snd.sendMsg.wp
  }

  ghost predicate ConnInv(c: Conn, e: NodeEnd, acked: nat, cw: nat, r: Rings)
  {
    && r.Valid()
    && History(c, r)
    && Pointers(c, e)
    && Chain(c, e, acked, cw, r)
    && Token(c)
    && Messages(c, e)
    && Told(c, e)
    && Memory(c)
  }

  function InitialConn(desc: seq<Descriptor>, data: seq<Byte>): (c: Conn)
  {
    Conn(INITIAL_SENDER, [], None, [], desc, data, [], 0, 0, 0)
  }

  lemma InitialConnInv(desc: seq<Descriptor>, data: seq<Byte>, r: Rings)
    requires r.Valid() && |desc| == r.DescSize() && |data| == r.DataSize()
    ensures ConnInv(InitialConn(desc, data), CN.INITIAL_NODE_END, 0, 0, r)
  {
  }

  // ---- steps -------------------------------------------------------------------------

  /** Puts one component on the wire, if allowed. */
  function Send(c: Conn, r: Rings, maxPending: nat, payload: seq<Byte>, ts: nat, num: nat): (c': Conn)
  {
    if !c.snd.finalizing && CanSend(c.snd, r, maxPending, |payload|) then
      var skip := SkipRequired(c.snd, r, |payload|);
      c.(snd := AfterSend(c.snd, r, |payload|),
         toNode := c.toNode + DataPackets(c.snd, r, skip, payload)
                   + [DescriptorPacket(c.snd, r, skip, payload, ts, num)],
         sent := c.sent + [Component(ts, c.snd.cnWp.data + skip, payload, num)])
    else
      c
  }

  function Posted(msgs: seq<InputStatus>): (ps: seq<Packet>)
    ensures |ps| == |msgs| && forall k :: 0 <= k < |ps| ==> ps[k] == Status(msgs[k])
  {
    seq(|msgs|, i requires 0 <= i < |msgs| => Status(msgs[i]))
  }

  function After(c: Conn, e: Emit): (c': Conn)
  {
    c.(snd := e.end, toNode := c.toNode + Posted(e.out))
  }

  function Sync(c: Conn): (c': Conn) { After(c, TrySync(c.snd)) }

  function FinalizeConn(c: Conn, abort: bool): (c': Conn)
  {
    if c.snd.finalizing then c else After(c, Finalize(c.snd, abort))
  }

  /** The oldest packet in flight reaches the compute node. */
  function Land(c: Conn): (c': Conn)
  {
    if |c.toNode| == 0 then c else
    var rest := c.(toNode := c.toNode[1..]);
    match c.toNode[0]
    case DataWrite(addr, bytes) =>
      if addr + |bytes| <= |c.data| then
        rest.(data := c.data[..addr] + bytes + c.data[addr + |bytes|..], landedData := c.landedData + 1)
      else c
    case DescWrite(slot, d) =>
      if slot < |c.desc| then rest.(desc := c.desc[slot := d], landedDesc := c.landedDesc + 1) else c
    case Status(m) =>
      if c.arrived.None? then rest.(arrived := Some(m)) else c
  }

  /** The input node handles the oldest reply. */
  function ReceiveReply(c: Conn): (c': Conn)
  {
    if |c.toInput| == 0 then c else
    After(c.(toInput := c.toInput[1..]), ReceiveStatus(c.snd, c.toInput[0]))
  }

  /** The input node sees the next write completion of this connection. */
  function PollWrite(c: Conn): (c': Conn)
  {
    if c.polled < c.landedDesc && c.snd.pending > 0 then
      c.(polled := c.polled + 1, snd := c.snd.(pending := c.snd.pending - 1))
    else
      c
  }

  /** The compute node's side of handling the arrived status message. */
  function Reply(c: Conn, reply: NodeStatus): (c': Conn)
  {
    c.(arrived := None, toInput := c.toInput + [reply])
  }

  // ---- every step keeps the invariant -------------------------------------------------

  lemma SendKeeps(c: Conn, e: NodeEnd, acked: nat, cw: nat, r: Rings, maxPending: nat, payload: seq<Byte>, ts: nat,
                  num: nat)
    requires ConnInv(c, e, acked, cw, r)
    ensures ConnInv(Send(c, r, maxPending, payload, ts, num), e, acked, cw, r)
  {
    if !c.snd.finalizing && CanSend(c.snd, r, maxPending, |payload|) {
      var k := SendEffect(c, e, acked, cw, r, maxPending, payload, ts, num);
      AppendKeeps(c, Send(c, r, maxPending, payload, ts, num), e, acked, cw, r, k);
    }
  }

  /** `c'` is `c` with component `k` put on the wire. */
  ghost predicate Appended(c: Conn, c': Conn, r: Rings, k: Component)
  {
    && c' == c.(snd := c'.snd, toNode := c'.toNode, sent := c'.sent)
    && c'.snd == c.snd.(cnWp := c'.snd.cnWp, pending := c.snd.pending + 1)
    && c'.sent == c.sent + [k]
    && c'.toNode == c.toNode + [k.DataPacket(r), k.DescPacket(|c.sent|, r)]
    && c'.snd.cnWp == Position(k.End(), |c.sent| + 1)
    && k.End() <= c.snd.cnAck.data + r.DataSize()
    && |c.sent| + 1 <= c.snd.cnAck.desc + r.DescSize()
  }

  lemma AppendKeeps(c: Conn, c': Conn, e: NodeEnd, acked: nat, cw: nat, r: Rings, k: Component)
    requires ConnInv(c, e, acked, cw, r)
    requires !c.snd.finalizing && Appended(c, c', r, k)
    requires WpAt(c.sent, |c.sent|).data <= k.offset && FitsAt(k, r)
    ensures ConnInv(c', e, acked, cw, r)
  {
    SentGrows(c.sent, k);
    AppendHistory(c, c', r, k);
    AppendCount(c, c', r, k);
    MemoryGrows(c.desc, c.data, c.sent, k);
  }

  lemma AppendHistory(c: Conn, c': Conn, r: Rings, k: Component)
    requires History(c, r) && Appended(c, c', r, k)
    requires WpAt(c.sent, |c.sent|).data <= k.offset && FitsAt(k, r)
    ensures History(c', r)
  {
    SentGrows(c.sent, k);
    InFlightComponent(c.toNode, c.sent, c.landedDesc, c.landedData > c.landedDesc, r, k);
  }

  lemma AppendCount(c: Conn, c': Conn, r: Rings, k: Component)
    requires Appended(c, c', r, k)
    ensures StatusCount(c'.toNode) == StatusCount(c.toNode)
  {
    var ps := [k.DataPacket(r), k.DescPacket(|c.sent|, r)];
    StatusCountAppend(c.toNode, ps);
    var tail := ps[1..];
    assert tail == [k.DescPacket(|c.sent|, r)] && tail[1..] == [];
    assert StatusCount(tail) == 0;
  }

  /** What a permitted send puts on the wire and where it leaves the pointers. */
  lemma SenderBounds(c: Conn, e: NodeEnd, acked: nat, cw: nat, r: Rings)
    requires ConnInv(c, e, acked, cw, r)
    ensures r.Valid() && c.snd.cnWp == WpAt(c.sent, |c.sent|)
    ensures c.snd.cnAck.data <= c.snd.cnWp.data <= c.snd.cnAck.data + r.DataSize()
    ensures c.snd.cnAck.desc <= c.snd.cnWp.desc <= c.snd.cnAck.desc + r.DescSize()
  {
    WpMonotone(c.sent, c.snd.cnAck.desc, |c.sent|);
  }

  lemma SendEffect(c: Conn, e: NodeEnd, acked: nat, cw: nat, r: Rings, maxPending: nat, payload: seq<Byte>, ts: nat,
                   num: nat) returns (k: Component)
    requires ConnInv(c, e, acked, cw, r)
    requires !c.snd.finalizing && CanSend(c.snd, r, maxPending, |payload|)
    ensures k.payload == payload && k.tsNum == ts && k.numMicroslices == num
    ensures WpAt(c.sent, |c.sent|).data <= k.offset && FitsAt(k, r)
    ensures Appended(c, Send(c, r, maxPending, payload, ts, num), r, k)
  {
    hide ConnInv, Pow2;
    var skip := SkipRequired(c.snd, r, |payload|);
    k := Component(ts, c.snd.cnWp.data + skip, payload, num);
    SenderBounds(c, e, acked, cw, r);
    SendNeverWraps(c.snd, r, maxPending, payload);
    CheckIsExact(c.snd, r, |payload| + skip, 1);
  }

  /** Appending to the history changes none of its earlier positions. */
  lemma SentGrows(sent: seq<Component>, k: Component)
    requires Ordered(sent) && WpAt(sent, |sent|).data <= k.offset
    ensures forall p: Position :: IsWp(sent, p) ==> IsWp(sent + [k], p)
    ensures Ordered(sent + [k])
  {
    assert forall n :: 0 <= n <= |sent| ==> WpAt(sent + [k], n) == WpAt(sent, n);
  }

  lemma MemoryGrows(desc: seq<Descriptor>, data: seq<Byte>, sent: seq<Component>, k: Component)
    ensures forall p :: SlotHolds(desc, sent, p) ==> SlotHolds(desc, sent + [k], p)
    ensures forall p :: BytesHold(data, sent, p) ==> BytesHold(data, sent + [k], p)
  {
  }

  /** Posting at most one current status message. */
  lemma PostKeeps(c: Conn, r: Rings, out: seq<InputStatus>)
    requires History(c, r)
    requires |out| <= 1
    requires |out| == 1 && !out[0].final ==> out[0].wp == WpAt(c.sent, |c.sent|)
    ensures var ps := c.toNode + Posted(out);
            && InFlight(ps, c.sent, c.landedDesc, c.landedData > c.landedDesc, r)
            && StatusCount(ps) == StatusCount(c.toNode) + |out|
            && (StatusCount(ps) == 1 && |out| == 1 ==>
                  forall k :: 0 <= k < |ps| && ps[k].Status? ==> ps[k] == Status(out[0]))
            && (|out| == 0 ==> ps == c.toNode)
  {
    var ps := Posted(out);
    if |out| == 0 {
      assert c.toNode + ps == c.toNode;
    } else {
      assert ps == [Status(out[0])] && ps[1..] == [];
      InFlightStatus(c.toNode, c.sent, c.landedDesc, c.landedData > c.landedDesc, r, out[0]);
      StatusCountAppend(c.toNode, ps);
      if StatusCount(c.toNode) == 0 {
        NoStatus(c.toNode);
      }
    }
  }

  lemma {:induction false} NoStatus(ps: seq<Packet>)
    requires StatusCount(ps) == 0
    ensures forall k :: 0 <= k < |ps| ==> !ps[k].Status?
  {
    if |ps| > 0 {
      NoStatus(ps[1..]);
      assert forall k :: 1 <= k < |ps| ==> ps[k] == ps[1..][k - 1];
    }
  }

  lemma SyncKeeps(c: Conn, e: NodeEnd, acked: nat, cw: nat, r: Rings)
    requires ConnInv(c, e, acked, cw, r)
    ensures ConnInv(Sync(c), e, acked, cw, r)
  {
    PostKeeps(c, r, TrySync(c.snd).out);
  }

  lemma FinalizeKeeps(c: Conn, e: NodeEnd, acked: nat, cw: nat, r: Rings, abort: bool)
    requires ConnInv(c, e, acked, cw, r)
    ensures ConnInv(FinalizeConn(c, abort), e, acked, cw, r)
  {
    if !c.snd.finalizing {
      PostKeeps(c, r, Finalize(c.snd, abort).out);
    }
  }

  lemma PollWriteKeeps(c: Conn, e: NodeEnd, acked: nat, cw: nat, r: Rings)
    requires ConnInv(c, e, acked, cw, r)
    ensures ConnInv(PollWrite(c), e, acked, cw, r)
  {
  }

  lemma ReceiveReplyKeeps(c: Conn, e: NodeEnd, acked: nat, cw: nat, r: Rings)
    requires ConnInv(c, e, acked, cw, r)
    ensures ConnInv(ReceiveReply(c), e, acked, cw, r)
  {
    if |c.toInput| > 0 {
      var c' := ReceiveReply(c);
      var m := c.toInput[0];
      assert m.ack == e.sendMsg.ack && m.final == e.sendMsg.final;
      var out := ReceiveStatus(c.snd, m).out;
      PostKeeps(c, r, out);
      WpMonotone(c.sent, c.snd.cnAck.desc, e.sendMsg.ack.desc);
      assert c'.toNode == c.toNode + Posted(out);
      assert Chain(c', e, acked, cw, r);
      assert Token(c');
      assert Messages(c', e);
    }
  }

  /** Where the live components lie: any later component stays clear of them in both rings. */
  lemma LiveDisjoint(c: Conn, e: NodeEnd, acked: nat, cw: nat, r: Rings, p: nat, q: nat)
    requires History(c, r) && Pointers(c, e) && Chain(c, e, acked, cw, r)
    requires c.snd.cnAck.desc <= p < q < |c.sent|
    ensures p % r.DescSize() != q % r.DescSize()
    ensures var at, at' := c.sent[p].offset % r.DataSize(), c.sent[q].offset % r.DataSize();
            at + |c.sent[p].payload| <= at' || at' + |c.sent[q].payload| <= at
  {
    if p % r.DescSize() == q % r.DescSize() {
      SlotsDistinct(p, q, r.DescSize());
    }
    WpMonotone(c.sent, c.snd.cnAck.desc, p);
    WpMonotone(c.sent, p + 1, q);
    WpMonotone(c.sent, q + 1, |c.sent|);
    assert FitsAt(c.sent[p], r) && FitsAt(c.sent[q], r);
    StretchesDisjoint(c.sent[p].offset, |c.sent[p].payload|, c.sent[q].offset, |c.sent[q].payload|, r.DataSize());
  }

  lemma LandKeeps(c: Conn, e: NodeEnd, acked: nat, cw: nat, r: Rings)
    requires ConnInv(c, e, acked, cw, r)
    ensures ConnInv(Land(c), e, acked, cw, r)
    ensures |c.toNode| > 0 ==> Land(c).toNode == c.toNode[1..]
  {
    if |c.toNode| > 0 {
      var k := c.toNode[0];
      assert c.toNode == [k] + c.toNode[1..];
      match k
      case DataWrite(_, _) => LandDataKeeps(c, e, acked, cw, r);
      case DescWrite(_, _) => LandDescKeeps(c, e, acked, cw, r);
      case Status(_) => LandStatusKeeps(c, e, acked, cw, r);
    }
  }

  lemma LandDataKeeps(c: Conn, e: NodeEnd, acked: nat, cw: nat, r: Rings)
    requires ConnInv(c, e, acked, cw, r)
    requires |c.toNode| > 0 && c.toNode[0].DataWrite?
    ensures ConnInv(Land(c), e, acked, cw, r)
    ensures Land(c).toNode == c.toNode[1..]
  {
    var q := c.landedDesc;
    var k := c.sent[q];
    assert c.toNode[0] == k.DataPacket(r) && c.landedData == q;
    assert FitsAt(k, r);
    var at := k.offset % r.DataSize();
    var c' := Land(c);
    var data' := c.data[..at] + k.payload + c.data[at + |k.payload|..];
    assert c' == c.(toNode := c.toNode[1..], data := data', landedData := q + 1);
    LandedBytes(c, e, acked, cw, r, q, c'.data);
  }

  /** Writing component `q` keeps the bytes of every live one before it. */
  lemma LandedBytes(c: Conn, e: NodeEnd, acked: nat, cw: nat, r: Rings, q: nat, data': seq<Byte>)
    requires History(c, r) && Pointers(c, e) && Chain(c, e, acked, cw, r)
    requires q < |c.sent| && FitsAt(c.sent[q], r)
    requires forall p :: c.snd.cnAck.desc <= p < q ==> BytesHold(c.data, c.sent, p)
    requires var at, k := c.sent[q].offset % r.DataSize(), c.sent[q];
             data' == c.data[..at] + k.payload + c.data[at + |k.payload|..]
    ensures forall p :: c.snd.cnAck.desc <= p <= q ==> BytesHold(data', c.sent, p)
  {
    var at, k := c.sent[q].offset % r.DataSize(), c.sent[q];
    forall p | c.snd.cnAck.desc <= p <= q
      ensures BytesHold(data', c.sent, p)
    {
      if p < q {
        assert BytesHold(c.data, c.sent, p);
        LiveDisjoint(c, e, acked, cw, r, p, q);
        WriteElsewhere(c.data, at, k.payload, c.sent[p].offset % r.DataSize(), c.sent[p].payload);
      } else {
        assert data'[at..at + |k.payload|] == k.payload;
      }
    }
  }

  /** A write that overlaps nothing of a stretch leaves the stretch as it was. */
  lemma WriteElsewhere(data: seq<Byte>, at: nat, bytes: seq<Byte>, from: nat, was: seq<Byte>)
    requires at + |bytes| <= |data| && from + |was| <= |data|
    requires data[from..from + |was|] == was
    requires from + |was| <= at || at + |bytes| <= from
    ensures (data[..at] + bytes + data[at + |bytes|..])[from..from + |was|] == was
  {
    var data' := data[..at] + bytes + data[at + |bytes|..];
    forall k | 0 <= k < |was|
      ensures data'[from + k] == was[k]
    {
      assert data[from + k] == data[from..from + |was|][k];
    }
  }

  lemma LandDescKeeps(c: Conn, e: NodeEnd, acked: nat, cw: nat, r: Rings)
    requires ConnInv(c, e, acked, cw, r)
    requires |c.toNode| > 0 && c.toNode[0].DescWrite?
    ensures ConnInv(Land(c), e, acked, cw, r)
    ensures Land(c).toNode == c.toNode[1..]
  {
    var q := c.landedDesc;
    assert c.landedData == q + 1 && c.toNode[0] == c.sent[q].DescPacket(q, r);
    var c' := Land(c);
    assert c' == c.(toNode := c.toNode[1..], desc := c.desc[q % r.DescSize() := c.sent[q].Desc()], landedDesc := q + 1);
    forall p | c.snd.cnAck.desc <= p < q + 1
      ensures SlotHolds(c'.desc, c'.sent, p)
    {
      if p < q {
        assert SlotHolds(c.desc, c.sent, p);
        LiveDisjoint(c, e, acked, cw, r, p, q);
      }
    }
  }

  lemma LandStatusKeeps(c: Conn, e: NodeEnd, acked: nat, cw: nat, r: Rings)
    requires ConnInv(c, e, acked, cw, r)
    requires |c.toNode| > 0 && c.toNode[0].Status?
    ensures ConnInv(Land(c), e, acked, cw, r)
    ensures Land(c).toNode == c.toNode[1..]
  {
    assert StatusCount(c.toNode) >= 1;
    assert c.arrived.None? && c.landedData == c.landedDesc;
    var c' := Land(c);
    assert c' == c.(toNode := c.toNode[1..], arrived := Some(c.toNode[0].msg));
    assert forall k :: 0 <= k < |c'.toNode| ==> c'.toNode[k] == c.toNode[k + 1];
  }

  /** The compute node handles the arrived status message and answers it. */
  lemma ReplyKeeps(c: Conn, e: NodeEnd, acked: nat, cw: nat, r: Rings)
    requires ConnInv(c, e, acked, cw, r)
    requires c.arrived.Some?
    ensures var e' := CN.ReceiveStatus(e, c.arrived.value);
            && ConnInv(Reply(c, e'.sendMsg), e', acked, cw, r)
            && e.cnWp.desc <= e'.cnWp.desc && e'.cnAck == e.cnAck
  {
  }

  /** Advancing the acknowledge index reads a descriptor slot that nobody has reused. */
  lemma AckKeeps(c: Conn, e: NodeEnd, acked: nat, acked': nat, cw: nat, r: Rings)
    requires ConnInv(c, e, acked, cw, r)
    requires acked < acked' <= cw
    ensures |c.desc| > 0
    ensures ConnInv(c, CN.IncAckPointers(e, c.desc, acked'), acked', cw, r)
  {
    assert SlotHolds(c.desc, c.sent, acked' - 1);
  }

  /** Raising `cw` up to the received write pointer changes nothing else. */
  lemma WrittenKeeps(c: Conn, e: NodeEnd, acked: nat, cw: nat, cw': nat, r: Rings)
    requires ConnInv(c, e, acked, cw, r)
    requires cw <= cw' <= e.cnWp.desc
    ensures ConnInv(c, e, acked, cw', r)
  {
  }

  // ---- what the invariant gives ------------------------------------------------------

  /** The facts about a connection that the rest of the node relies on. */
  lemma ConnFacts(c: Conn, e: NodeEnd, acked: nat, cw: nat, r: Rings)
    requires ConnInv(c, e, acked, cw, r)
    ensures |c.desc| == r.DescSize() && |c.data| == r.DataSize()
    ensures acked <= cw <= e.cnWp.desc <= c.landedDesc <= |c.sent| <= acked + r.DescSize()
    ensures c.arrived.Some? ==> !c.snd.done
    ensures c.snd.done ==> e.sendMsg.final
    ensures e.sendMsg.final ==> c.snd.sendMsg.final && e.recvMsg == c.snd.sendMsg
  {
  }

  /** The node may mark an answered final message as sent, and ask for an abort at any time. */
  lemma MarksKeep(c: Conn, e: NodeEnd, acked: nat, cw: nat, r: Rings)
    requires ConnInv(c, e, acked, cw, r)
    ensures e.sendMsg.final ==> ConnInv(c, e.(done := true), acked, cw, r)
    ensures ConnInv(c, e.(sendMsg := e.sendMsg.(requestAbort := true)), acked, cw, r)
  {
  }

  /** No posted write touches the slot or the bytes of a landed, unacknowledged component. */
  lemma NoWriteTouches(c: Conn, e: NodeEnd, acked: nat, cw: nat, r: Rings, p: nat, k: nat)
    requires ConnInv(c, e, acked, cw, r)
    requires acked <= p < c.landedDesc
    requires k < |c.toNode|
    ensures c.toNode[k].DescWrite? ==> c.toNode[k].slot != p % r.DescSize()
    ensures c.toNode[k].DataWrite? ==>
      var at := c.sent[p].offset % r.DataSize();
      at + |c.sent[p].payload| <= c.toNode[k].addr || c.toNode[k].addr + |c.toNode[k].bytes| <= at
  {
    if !c.toNode[k].Status? {
      var q := InFlightWrites(c.toNode, c.sent, c.landedDesc, c.landedData > c.landedDesc, r, k);
      LiveDisjoint(c, e, acked, cw, r, p, q);
    }
  }

  /** A final message without abort means everything sent has been acknowledged. */
  lemma FinalMeansAcked(c: Conn, e: NodeEnd, acked: nat, cw: nat, r: Rings)
    requires ConnInv(c, e, acked, cw, r)
    requires c.snd.sendMsg.final && !c.snd.sendMsg.abort
    ensures acked == cw == e.cnWp.desc == |c.sent|
  {
  }
}
