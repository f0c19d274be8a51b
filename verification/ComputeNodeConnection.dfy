/** The compute node's end of a connection to one input node. */
module ComputeNodeConnection {
  import opened Wire

  datatype NodeEnd = NodeEnd(
    cnAck: Position, cnWp: Position, sendMsg: NodeStatus, recvMsg: InputStatus, done: bool)

  const INITIAL_NODE_END := NodeEnd(
    Position(0, 0), Position(0, 0), NodeStatus(Position(0, 0), false, false),
    InputStatus(Position(0, 0), false, false), false)

  /** Acknowledges everything before `ackPos`; the data pointer is read out of the last
      acknowledged descriptor slot. */
  function IncAckPointers(e: NodeEnd, ring: seq<Descriptor>, ackPos: nat): (e': NodeEnd)
    requires ackPos > 0 && |ring| > 0
  {
    var acked := ring[(ackPos - 1) % |ring|];
    e.(cnAck := Position(acked.offset + acked.size, ackPos))
  }

  /** Takes over the received status message; `sendMsg` of the result is the reply. */
  function ReceiveStatus(e: NodeEnd, m: InputStatus): (e': NodeEnd)
  {
    if m.final then
      e.(recvMsg := m, sendMsg := e.sendMsg.(final := true))
    else
      e.(recvMsg := m, cnWp := m.wp, sendMsg := e.sendMsg.(ack := e.cnAck))
  }

  class NodeConnection {
    var cnAck: Position
    var cnWp: Position
    var sendMsg: NodeStatus
    var recvMsg: InputStatus
    var done: bool

    function State(): (e: NodeEnd)
      reads this
    {
      NodeEnd(cnAck, cnWp, sendMsg, recvMsg, done)
    }

    constructor ()
      ensures State() == INITIAL_NODE_END
    {
      cnAck, cnWp := Position(0, 0), Position(0, 0);
      sendMsg := NodeStatus(Position(0, 0), false, false);
      recvMsg := InputStatus(Position(0, 0), false, false);
      done := false;
    }

    /** If the last acknowledged slot still holds what was sent there, the new pointers are
        the position right behind that component. */
    method AdvanceAck(ring: seq<Descriptor>, ackPos: nat, ghost sent: seq<Component>)
      requires ackPos > 0 && |ring| > 0
      modifies this
      ensures State() == IncAckPointers(old(State()), ring, ackPos)
      ensures SlotHolds(ring, sent, ackPos - 1) ==> cnAck == WpAt(sent, ackPos)
    {
      cnAck := cnAck.(desc := ackPos);
      var ackedTs := ring[(ackPos - 1) % |ring|];
      cnAck := cnAck.(data := ackedTs.offset + ackedTs.size);
    }

    method OnCompleteRecv(m: InputStatus) returns (reply: NodeStatus)
      modifies this
      ensures State() == ReceiveStatus(old(State()), m)
      ensures reply == State().sendMsg && recvMsg == m
      ensures m.final ==> reply.final && cnWp == old(cnWp)
      ensures !m.final ==> cnWp == m.wp && reply.ack == cnAck
    {
      recvMsg := m;
      if m.final {
        sendMsg := sendMsg.(final := true);
        return sendMsg;
      }
      cnWp := m.wp;
      sendMsg := sendMsg.(ack := cnAck);
      reply := sendMsg;
    }
  }
}
