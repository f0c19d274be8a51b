/** The input node's end of a connection to one compute node. */
module InputChannelConnection {
  import opened RingMath
  import opened Wire

  datatype SenderEnd = SenderEnd(
    cnWp: Position, cnAck: Position, ourTurn: bool, finalizing: bool, aborting: bool,
    sendMsg: InputStatus, pending: nat, done: bool)

  const INITIAL_SENDER := SenderEnd(
    Position(0, 0), Position(0, 0), true, false, false, InputStatus(Position(0, 0), false, false), 0, false)

  /** A new state together with the status messages posted on the way. */
  datatype Emit = Emit(end: SenderEnd, out: seq<InputStatus>)

  /** The space test, in 64-bit modular arithmetic. */
  predicate CheckForBufferSpace(s: SenderEnd, r: Rings, dataSize: nat, descSize: nat)
  {
    var dataAvail := (s.cnAck.data - s.cnWp.data + r.DataSize()) % WORD;
    var descAvail := (s.cnAck.desc - s.cnWp.desc + r.DescSize()) % WORD;
    dataSize <= dataAvail && descSize <= descAvail
  }

  /** While the write pointers are at most one ring ahead of the acknowledged ones, the
      modular test says exactly that the new write pointers stay within one ring. */
  lemma CheckIsExact(s: SenderEnd, r: Rings, dataSize: nat, descSize: nat)
    requires r.Valid()
    requires s.cnAck.data <= s.cnWp.data <= s.cnAck.data + r.DataSize()
    requires s.cnAck.desc <= s.cnWp.desc <= s.cnAck.desc + r.DescSize()
    ensures CheckForBufferSpace(s, r, dataSize, descSize) <==>
            && s.cnWp.data + dataSize <= s.cnAck.data + r.DataSize()
            && s.cnWp.desc + descSize <= s.cnAck.desc + r.DescSize()
  {
    RingFitsWord(r.dataExp);
    RingFitsWord(r.descExp);
  }

  function SkipRequired(s: SenderEnd, r: Rings, dataSize: nat): (skip: nat)
    ensures skip == 0 <==> !Wraps(s.cnWp.data, dataSize, r.DataSize())
    ensures skip == 0 || (s.cnWp.data + skip) % r.DataSize() == 0
    ensures dataSize <= r.DataSize() ==> !Wraps(s.cnWp.data + skip, dataSize, r.DataSize())
  {
    SkipFrom(s.cnWp.data, r, dataSize)
  }

  /** The bytes left to the end of the ring, if `dataSize` bytes from `wp` on would wrap. */
  function SkipFrom(wp: nat, r: Rings, dataSize: nat): (skip: nat)
    ensures skip == 0 <==> !Wraps(wp, dataSize, r.DataSize())
    ensures skip == 0 || (wp + skip) % r.DataSize() == 0
    ensures dataSize <= r.DataSize() ==> !Wraps(wp + skip, dataSize, r.DataSize())
  {
    var at := wp % r.DataSize();
    if at + dataSize <= r.DataSize() then
      0
    else
      var skip := r.DataSize() - at;
      RemainderUnique(wp + skip, r.DataSize(), wp / r.DataSize() + 1, 0);
      skip
  }

  /** No smaller skip would do. */
  lemma SkipIsLeast(wp: nat, r: Rings, dataSize: nat)
    requires dataSize <= r.DataSize()
    ensures LeastNonwrapping(wp, dataSize, r.DataSize(), wp + SkipFrom(wp, r, dataSize))
  {
    BorderIsLeast(wp, dataSize, r.DataSize());
  }

  /** The work requests for one component: the data, split where the remote ring wraps,
      then the descriptor. */
  function DataPackets(s: SenderEnd, r: Rings, skip: nat, payload: seq<Byte>): (out: seq<Packet>)
  {
    var addr := (s.cnWp.data + skip) % r.DataSize();
    var bytesLeft := r.DataSize() - addr;
    if |payload| > bytesLeft then
      [DataWrite(addr, payload[..bytesLeft]), DataWrite(0, payload[bytesLeft..])]
    else
      [DataWrite(addr, payload)]
  }

  function DescriptorPacket(s: SenderEnd, r: Rings, skip: nat, payload: seq<Byte>, ts: nat, num: nat): (out: Packet)
  {
    DescWrite(s.cnWp.desc % r.DescSize(), Descriptor(ts, s.cnWp.data + skip, |payload|, num))
  }

  /** Whether the sender may put a component of this size on the wire now. */
  predicate CanSend(s: SenderEnd, r: Rings, maxPending: nat, length: nat)
  {
    && s.pending < maxPending
    && CheckForBufferSpace(s, r, length + SkipRequired(s, r, length), 1)
  }

  function IncWritePointers(s: SenderEnd, dataSize: nat, descSize: nat): (s': SenderEnd)
  {
    s.(cnWp := Position(s.cnWp.data + dataSize, s.cnWp.desc + descSize))
  }

  function AfterSend(s: SenderEnd, r: Rings, length: nat): (s': SenderEnd)
  {
    IncWritePointers(s, length + SkipRequired(s, r, length), 1).(pending := s.pending + 1)
  }

  /** A send that passes the space test never splits: the wrap list is empty. */
  lemma SendNeverWraps(s: SenderEnd, r: Rings, maxPending: nat, payload: seq<Byte>)
    requires r.Valid()
    requires s.cnAck.data <= s.cnWp.data <= s.cnAck.data + r.DataSize()
    requires s.cnAck.desc <= s.cnWp.desc <= s.cnAck.desc + r.DescSize()
    requires CanSend(s, r, maxPending, |payload|)
    ensures var skip := SkipRequired(s, r, |payload|);
            && |payload| + skip <= r.DataSize()
            && DataPackets(s, r, skip, payload) == [DataWrite((s.cnWp.data + skip) % r.DataSize(), payload)]
  {
    CheckIsExact(s, r, |payload| + SkipRequired(s, r, |payload|), 1);
  }

  /** The write pointers are at most one ring ahead of the acknowledged ones. */
  predicate WithinRing(s: SenderEnd, r: Rings)
  {
    && s.cnAck.data <= s.cnWp.data <= s.cnAck.data + r.DataSize()
    && s.cnAck.desc <= s.cnWp.desc <= s.cnAck.desc + r.DescSize()
  }

  /** `out` is one data write at the first place from the old write pointer on where it does not
      wrap and then the descriptor that names this place; the new write pointer is its end. */
  ghost predicate Placed(s: SenderEnd, r: Rings, payload: seq<Byte>, ts: nat, num: nat, s': SenderEnd, out: seq<Packet>)
  {
    && s.cnWp.data + |payload| <= s'.cnWp.data && s'.cnWp.desc == s.cnWp.desc + 1
    && var offset := s'.cnWp.data - |payload|;
       && LeastNonwrapping(s.cnWp.data, |payload|, r.DataSize(), offset)
       && out == [DataWrite(offset % r.DataSize(), payload),
                  DescWrite(s.cnWp.desc % r.DescSize(), Descriptor(ts, offset, |payload|, num))]
  }

  lemma SendPlaces(s: SenderEnd, r: Rings, maxPending: nat, payload: seq<Byte>, ts: nat, num: nat)
    requires r.Valid() && WithinRing(s, r) && CanSend(s, r, maxPending, |payload|)
    ensures var skip, s' := SkipRequired(s, r, |payload|), AfterSend(s, r, |payload|);
            && WithinRing(s', r)
            && Placed(s, r, payload, ts, num, s',
                      DataPackets(s, r, skip, payload) + [DescriptorPacket(s, r, skip, payload, ts, num)])
  {
    hide Pow2, LeastNonwrapping;
    SendNeverWraps(s, r, maxPending, payload);
    CheckIsExact(s, r, |payload| + SkipRequired(s, r, |payload|), 1);
    SkipIsLeast(s.cnWp.data, r, |payload|);
  }

  /** A write request and a descriptor slot are free, and the component has a place behind the
      write pointer where it neither wraps nor reaches what is not acknowledged. */
  ghost predicate Sendable(s: SenderEnd, r: Rings, maxPending: nat, length: nat)
  {
    && s.pending < maxPending && s.cnWp.desc < s.cnAck.desc + r.DescSize()
    && exists w: nat :: s.cnWp.data <= w && !Wraps(w, length, r.DataSize()) && w + length <= s.cnAck.data + r.DataSize()
  }

  /** The tests with their skip find a place exactly when there is one. */
  lemma CanSendExactly(s: SenderEnd, r: Rings, maxPending: nat, length: nat)
    requires r.Valid() && WithinRing(s, r)
    ensures CanSend(s, r, maxPending, length) <==> Sendable(s, r, maxPending, length)
  {
    hide Pow2;
    var skip := SkipRequired(s, r, length);
    CheckIsExact(s, r, length + skip, 1);
    if CanSend(s, r, maxPending, length) {
      assert !Wraps(s.cnWp.data + skip, length, r.DataSize());
    }
    if length <= r.DataSize() {
      SkipIsLeast(s.cnWp.data, r, length);
    }
  }

  /** Whatever is acknowledged, a component can only be sent if it fits behind the write pointer
      or before it. */
  lemma SendNeedsRoom(s: SenderEnd, r: Rings, maxPending: nat, length: nat)
    requires r.Valid() && WithinRing(s, r) && CanSend(s, r, maxPending, length)
    ensures DrainedFits(r.DataSize(), s.cnWp.data, length)
  {
    CheckIsExact(s, r, length + SkipRequired(s, r, length), 1);
  }

  /** When everything is acknowledged, that is all it needs. */
  lemma DrainedSendExactly(s: SenderEnd, r: Rings, maxPending: nat, length: nat)
    requires r.Valid() && s.cnAck == s.cnWp && s.pending < maxPending
    ensures CanSend(s, r, maxPending, length) <==> DrainedFits(r.DataSize(), s.cnWp.data, length)
  {
    CheckIsExact(s, r, length + SkipRequired(s, r, length), 1);
  }

  /** So a component can be sent from every drained position if and only if it takes up at
      most half the remote data ring, rounded up. */
  lemma HalfRingExactly(r: Rings, maxPending: nat, length: nat)
    requires r.Valid() && maxPending > 0
    ensures (forall s: SenderEnd :: s.cnAck == s.cnWp && s.pending < maxPending ==> CanSend(s, r, maxPending, length))
            <==> length <= (r.DataSize() + 1) / 2
  {
    hide CanSend, DrainedFits;
    DrainedFitsExactly(r.DataSize(), length);
    forall s: SenderEnd | s.cnAck == s.cnWp && s.pending < maxPending
      ensures CanSend(s, r, maxPending, length) <==> DrainedFits(r.DataSize(), s.cnWp.data, length)
    {
      DrainedSendExactly(s, r, maxPending, length);
    }
    if length > (r.DataSize() + 1) / 2 {
      var w: nat :| !DrainedFits(r.DataSize(), w, length);
      var s := INITIAL_SENDER.(cnWp := Position(w, 0), cnAck := Position(w, 0));
      assert !CanSend(s, r, maxPending, length);
    }
  }

  function TrySync(s: SenderEnd): (e: Emit)
  {
    if s.ourTurn then
      var msg := s.sendMsg.(wp := s.cnWp);
      Emit(s.(ourTurn := false, sendMsg := msg), [msg])
    else
      Emit(s, [])
  }

  function Finalize(s: SenderEnd, abort: bool): (e: Emit)
  {
    var s1 := s.(finalizing := true, aborting := abort);
    if s.ourTurn then
      var msg := if s.cnWp == s.cnAck || abort
                 then s.sendMsg.(final := true, abort := abort)
                 else s.sendMsg.(wp := s.cnWp);
      Emit(s1.(ourTurn := false, sendMsg := msg), [msg])
    else
      Emit(s1, [])
  }

  function ReceiveStatus(s: SenderEnd, m: NodeStatus): (e: Emit)
  {
    if m.final then
      Emit(s.(done := true), [])
    else
      var s1 := s.(cnAck := m.ack);
      if s.cnWp == s.sendMsg.wp && s.finalizing then
        var msg := if s.cnWp == m.ack || s.aborting
                   then s.sendMsg.(final := true, abort := s.aborting)
                   else s.sendMsg;
        Emit(s1.(sendMsg := msg), [msg])
      else
        Emit(s1.(ourTurn := true), [])
  }

  /** The mutable object: each handler changes its fields as the function above says. */
  class InputConnection {
    const rings: Rings
    const maxPending: nat
    var cnWp: Position
    var cnAck: Position
    var ourTurn: bool
    var finalizing: bool
    var aborting: bool
    var sendMsg: InputStatus
    var pending: nat
    var done: bool

    function State(): (s: SenderEnd)
      reads this
    {
      SenderEnd(cnWp, cnAck, ourTurn, finalizing, aborting, sendMsg, pending, done)
    }

    constructor (rings: Rings, maxPending: nat)
      ensures State() == INITIAL_SENDER && this.rings == rings && this.maxPending == maxPending
    {
      this.rings, this.maxPending := rings, maxPending;
      cnWp, cnAck := Position(0, 0), Position(0, 0);
      ourTurn, finalizing, aborting := true, false, false;
      sendMsg := InputStatus(Position(0, 0), false, false);
      pending, done := 0, false;
    }

    /** Sends one component if write requests and remote space allow. */
    method TrySendComponent(payload: seq<Byte>, ts: nat, num: nat) returns (sent: bool, out: seq<Packet>)
      modifies this
      ensures sent == old(CanSend(State(), rings, maxPending, |payload|))
      ensures !sent ==> State() == old(State()) && out == []
      ensures sent ==>
        var skip := old(SkipRequired(State(), rings, |payload|));
        && State() == old(AfterSend(State(), rings, |payload|))
        && out == old(DataPackets(State(), rings, skip, payload))
                  + [old(DescriptorPacket(State(), rings, skip, payload, ts, num))]
      ensures rings.Valid() && old(WithinRing(State(), rings)) ==>
        sent == old(Sendable(State(), rings, maxPending, |payload|))
      ensures sent && rings.Valid() && old(WithinRing(State(), rings)) ==>
        WithinRing(State(), rings) && Placed(old(State()), rings, payload, ts, num, State(), out)
    {
      hide Pow2, SkipRequired, CheckForBufferSpace, Placed, DataPackets, DescriptorPacket, Sendable;
      ghost var was := State();
      if rings.Valid() && WithinRing(was, rings) {
        CanSendExactly(was, rings, maxPending, |payload|);
      }
      if CanSend(was, rings, maxPending, |payload|) && rings.Valid() && WithinRing(was, rings) {
        SendPlaces(was, rings, maxPending, payload, ts, num);
      }
      if pending >= maxPending {
        return false, [];
      }
      var length := |payload|;
      var skip := SkipRequired(State(), rings, length);
      length := length + skip;
      if !CheckForBufferSpace(State(), rings, length, 1) {
        return false, [];
      }
      out := DataPackets(State(), rings, skip, payload) + [DescriptorPacket(State(), rings, skip, payload, ts, num)];
      pending := pending + 1;
      cnWp := Position(cnWp.data + length, cnWp.desc + 1);
      sent := true;
    }

    method TrySyncBufferPositions() returns (out: seq<InputStatus>)
      modifies this
      ensures Emit(State(), out) == old(TrySync(State()))
      ensures !ourTurn && |out| == (if old(ourTurn) then 1 else 0)
      ensures out != [] ==> out[0].wp == cnWp
    {
      out := [];
      if ourTurn {
        ourTurn := false;
        sendMsg := sendMsg.(wp := cnWp);
        out := [sendMsg];
      }
    }

    method FinalizeConnection(abort: bool) returns (out: seq<InputStatus>)
      modifies this
      ensures Emit(State(), out) == old(Finalize(State(), abort))
      ensures finalizing && !ourTurn && |out| == (if old(ourTurn) then 1 else 0)
      ensures out != [] && !old(sendMsg.final) ==> (out[0].final <==> cnWp == cnAck || abort)
      ensures out != [] && !out[0].final ==> out[0].wp == cnWp
    {
      out := [];
      finalizing := true;
      aborting := abort;
      if ourTurn {
        ourTurn := false;
        if cnWp == cnAck || aborting {
          sendMsg := sendMsg.(final := true);
          sendMsg := sendMsg.(abort := aborting);
        } else {
          sendMsg := sendMsg.(wp := cnWp);
        }
        out := [sendMsg];
      }
    }

    method OnCompleteRecv(m: NodeStatus) returns (out: seq<InputStatus>)
      modifies this
      ensures Emit(State(), out) == old(ReceiveStatus(State(), m))
      ensures m.final ==> done && out == [] && cnAck == old(cnAck)
      ensures !m.final ==> cnAck == m.ack && done == old(done)
      ensures !old(ourTurn) && !m.final ==> (ourTurn && out == []) || (!ourTurn && |out| == 1)
      ensures out != [] ==> finalizing && out[0].wp == cnWp
      ensures out != [] && !old(sendMsg.final) ==> (out[0].final <==> cnWp == cnAck || aborting)
    {
      out := [];
      if m.final {
        done := true;
        return;
      }
      cnAck := m.ack;
      if cnWp == sendMsg.wp && finalizing {
        if cnWp == cnAck || aborting {
          sendMsg := sendMsg.(final := true);
          sendMsg := sendMsg.(abort := aborting);
        }
        out := [sendMsg];
      } else {
        ourTurn := true;
      }
    }
  }
}
