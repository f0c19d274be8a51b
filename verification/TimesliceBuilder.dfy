/** The compute node's event handlers: red lantern, work items, acknowledge index. */
module TimesliceBuilder {
  import opened RingMath
  import opened Wire
  import opened Reorder
  import CN = ComputeNodeConnection

  datatype WorkItem = WorkItem(tsIndex: nat, tsPos: nat)

  /** The state of the builder.  `done` are the completions recorded in the reorder ring,
      `outstanding` the work items not completed, `items` all work items ever sent. */
  datatype Core = Core(
    ends: seq<CN.NodeEnd>, redLantern: nat, cw: nat, acked: nat,
    done: set<nat>, outstanding: set<nat>, items: seq<WorkItem>, disconnected: set<nat>)

  /** The first connection with the smallest received write pointer among the first `n`. */
  function MinElement(ends: seq<CN.NodeEnd>, n: nat): (k: nat)
    requires 0 < n <= |ends|
    ensures k < n
    ensures forall j :: 0 <= j < n ==> ends[k].cnWp.desc <= ends[j].cnWp.desc
    ensures forall j :: 0 <= j < k ==> ends[k].cnWp.desc < ends[j].cnWp.desc
  {
    if n == 1 then 0 else
    var k := MinElement(ends, n - 1);
    if ends[n - 1].cnWp.desc < ends[k].cnWp.desc then n - 1 else k
  }

  /** The work items for positions `from` up to `to`, their index read from descriptor ring 0. */
  function ItemsFor(ring0: seq<Descriptor>, from: nat, to: nat): (items: seq<WorkItem>)
    requires |ring0| > 0
    ensures |items| == if from <= to then to - from else 0
  {
    if to <= from then [] else ItemsFor(ring0, from, to - 1) + [WorkItem(ring0[(to - 1) % |ring0|].tsNum, to - 1)]
  }

  function Positions(from: nat, to: nat): (s: set<nat>)
    ensures forall p :: p in s <==> from <= p < to
  {
    if to <= from then {} else Positions(from, to - 1) + {to - 1}
  }

  /** A status message of input `i` has been received. */
  function ReceiveStatus(c: Core, i: nat, m: InputStatus, ring0: seq<Descriptor>): (c': Core)
    requires i < |c.ends| && |ring0| > 0
  {
    var ends := c.ends[i := CN.ReceiveStatus(c.ends[i], m)];
    if c.disconnected == {} && i == c.redLantern then
      var k := MinElement(ends, |ends|);
      var cw' := ends[k].cnWp.desc;
      c.(ends := ends, redLantern := k, cw := cw',
         outstanding := c.outstanding + Positions(c.cw, cw'),
         items := c.items + ItemsFor(ring0, c.cw, cw'))
    else
      c.(ends := ends)
  }

  function AckAll(ends: seq<CN.NodeEnd>, rings: seq<seq<Descriptor>>, acked: nat): (ends': seq<CN.NodeEnd>)
    requires |ends| == |rings| && acked > 0
    requires forall j :: 0 <= j < |rings| ==> |rings[j]| > 0
  {
    seq(|ends|, j requires 0 <= j < |ends| => CN.IncAckPointers(ends[j], rings[j], acked))
  }

  /** The work item at position `pos` has been completed. */
  ghost function CompleteItem(c: Core, pos: nat, rings: seq<seq<Descriptor>>): (c': Core)
    requires |c.ends| == |rings| && forall j :: 0 <= j < |rings| ==> |rings[j]| > 0
  {
    var acked' := CompleteAcked(c.acked, c.done, pos);
    c.(outstanding := c.outstanding - {pos},
       done := CompleteDone(c.acked, c.done, pos),
       acked := acked',
       ends := if pos == c.acked then AckAll(c.ends, rings, acked') else c.ends)
  }

  /** The final status message of input `i` has left the node. */
  function FinalizeSent(c: Core, i: nat): (c': Core)
    requires i < |c.ends|
  {
    c.(ends := c.ends[i := c.ends[i].(done := true)])
  }

  function RequestAbort(c: Core): (c': Core)
  {
    c.(ends := seq(|c.ends|, j requires 0 <= j < |c.ends| =>
         c.ends[j].(sendMsg := c.ends[j].sendMsg.(requestAbort := true))))
  }

  /** The mutable builder.  Its reorder ring is an array updated in place. */
  class Builder {
    const descSize: nat
    var ends: seq<CN.NodeEnd>
    var redLantern: nat
    var completelyWritten: nat
    var acked: nat
    const ack: array<nat>
    var outstanding: set<nat>
    var items: seq<WorkItem>
    var disconnected: set<nat>

    ghost predicate Valid()
      reads this, ack
    {
      && ack.Length == descSize > 0
      && |ends| > 0
      && Represents(ack[..], acked, DoneOf(ack[..], acked))
    }

    ghost function State(): (c: Core)
      requires Valid()
      reads this, ack
    {
      Core(ends, redLantern, completelyWritten, acked, DoneOf(ack[..], acked), outstanding, items, disconnected)
    }

    constructor (numInputs: nat, descExp: nat)
      requires numInputs > 0
      ensures Valid() && fresh(ack) && descSize == Pow2(descExp)
      ensures State() == InitialCore(numInputs)
    {
      descSize := Pow2(descExp);
      ends := seq(numInputs, _ => CN.INITIAL_NODE_END);
      redLantern, completelyWritten, acked := 0, 0, 0;
      ack := new nat[Pow2(descExp)](_ => 0);
      outstanding, items, disconnected := {}, [], {};
      new;
      ClearedRepresents(ack[..], 0);
      DoneOfUnique(ack[..], 0, {});
    }

    /** A status message was received: hand it to the connection; if it came from the red
        lantern, look for the new slowest input and send the work items now complete. */
    method OnReceiveStatus(i: nat, m: InputStatus, ring0: seq<Descriptor>) returns (reply: NodeStatus)
      requires Valid() && i < |ends| && |ring0| > 0
      modifies this
      ensures Valid()
      ensures State() == ReceiveStatus(old(State()), i, m, ring0)
      ensures reply == State().ends[i].sendMsg
    {
      var e := CN.ReceiveStatus(ends[i], m);
      ends := ends[i := e];
      reply := e.sendMsg;
      if disconnected == {} && i == redLantern {
        var k := FindSlowest();
        var newWritten := ends[k].cnWp.desc;
        redLantern := k;
        SendWorkItems(newWritten, ring0);
        completelyWritten := newWritten;
      }
    }

    method FindSlowest() returns (k: nat)
      requires |ends| > 0
      ensures k == MinElement(ends, |ends|)
    {
      k := 0;
      for j := 1 to |ends|
        invariant k == MinElement(ends, j)
      {
        if ends[j].cnWp.desc < ends[k].cnWp.desc {
          k := j;
        }
      }
    }

    method SendWorkItems(newWritten: nat, ring0: seq<Descriptor>)
      requires |ring0| > 0
      modifies this`items, this`outstanding
      ensures items == old(items) + ItemsFor(ring0, completelyWritten, newWritten)
      ensures outstanding == old(outstanding) + Positions(completelyWritten, newWritten)
    {
      var tpos := completelyWritten;
      while tpos < newWritten
        invariant completelyWritten <= tpos <= newWritten || tpos == completelyWritten
        invariant items == old(items) + ItemsFor(ring0, completelyWritten, tpos)
        invariant outstanding == old(outstanding) + Positions(completelyWritten, tpos)
      {
        items := items + [WorkItem(ring0[tpos % |ring0|].tsNum, tpos)];
        outstanding := outstanding + {tpos};
        tpos := tpos + 1;
      }
    }

    /** A work item was completed: record it, or advance the acknowledge index as far as
        the recorded completions allow and acknowledge on every connection. */
    method PollTsCompletion(pos: nat, rings: seq<seq<Descriptor>>)
      requires Valid() && |rings| == |ends|
      requires forall j :: 0 <= j < |rings| ==> |rings[j]| > 0
      requires acked <= pos < acked + descSize && pos !in State().done
      modifies this, ack
      ensures Valid()
      ensures State() == CompleteItem(old(State()), pos, rings)
    {
      ghost var done := State().done;
      outstanding := outstanding - {pos};
      var advance := pos == acked;
      var acked' := Complete(ack, acked, pos, done);
      acked := acked';
      DoneOfUnique(ack[..], acked, CompleteDone(old(acked), done, pos));
      if advance {
        var ends' := [];
        for j := 0 to |ends|
          invariant |ends'| == j
          invariant ends' == AckAll(ends, rings, acked)[..j]
        {
          ends' := ends' + [CN.IncAckPointers(ends[j], rings[j], acked)];
        }
        ends := ends';
      }
    }
  }

  function InitialCore(numInputs: nat): (c: Core)
  {
    Core(seq(numInputs, _ => CN.INITIAL_NODE_END), 0, 0, 0, {}, {}, [], {})
  }
}
