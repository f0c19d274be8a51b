/** Timeslices without room: they are never sent, and they decide whether a run can be completed. */
module Refusal {
  import opened RingMath
  import opened Wire
  import opened InputChannelConnection
  import opened Connection
  import opened ComputeNode
  import opened InputChannelSender
  import opened System
  import opened SystemProofs
  import opened Continuation
  import opened FlagInvariants
  import opened Room
  import opened Progress

  // ---- what every send needs ---------------------------------------------------------------------

  /** Input `i` has sent nothing: it has the same timeslice to send and the same write pointers. */
  ghost predicate SentNothing(s: Sys, s': Sys, i: nat)
  {
    && i < |s.inputs| == |s'.inputs| && |s.nodes| == |s'.nodes|
    && s'.inputs[i].timeslice == s.inputs[i].timeslice
    && forall c: nat :: Inside(s, i, c) && Inside(s', i, c) ==>
         s'.nodes[c].conns[i].snd.cnWp == s.nodes[c].conns[i].snd.cnWp
  }

  /** The next timeslice of input `i` fits behind or before the write pointer of its target. */
  ghost predicate NextFits(cfg: Config, s: Sys, i: nat)
  {
    && cfg.Valid() && Sized(cfg, s) && i < |s.inputs|
    && var t := s.inputs[i].timeslice;
       var c := TargetNode(cfg, t);
       DrainedFits(cfg.rings[c].DataSize(), s.nodes[c].conns[i].snd.cnWp.data, |Payload(cfg.sources[i], cfg.sl, t)|)
  }

  /** What an input can cut out of its source's rings has room there. */
  lemma AvailableRoom(cfg: Config, i: nat, inp: Input)
    requires i < |cfg.sources| && InputInv(inp, cfg.sources[i], cfg.sl) && Available(inp, cfg.sources[i], cfg.sl)
    ensures SourceRoom(cfg, i, inp.timeslice)
  {
    hide TsOf, Pow2;
    var src := cfg.sources[i];
    var first := First(src, cfg.sl, inp.timeslice);
    FirstMonotone(src, cfg.sl, AckedTs(inp, src, cfg.sl), inp.timeslice);
    EndMonotone(src, inp.readDesc, inp.ackedDesc);
    EndMonotone(src, inp.ackedDesc, first);
    EndMonotone(src, first + cfg.sl.Length(), inp.written);
  }

  /** A step by which an input sends finds a write request, the timeslice in the source's rings,
      and room at the target. */
  lemma SendNeeds(cfg: Config, s: Sys, i: nat)
    requires SysInv(cfg, s) && i < |s.inputs| && cfg.Valid() && Sized(cfg, s)
    ensures || Apply(cfg, s, SendNext(i)) == s
            || (NextFits(cfg, s, i) && cfg.maxPending > 0 && SourceRoom(cfg, i, s.inputs[i].timeslice))
  {
    hide SysInv, InputInv, NodeInv, ConnInv, Linked, Gather, Payload, CanSend, Available, DrainedFits, SourceRoom;
    var inp, src := s.inputs[i], cfg.sources[i];
    var c := TargetNode(cfg, inp.timeslice);
    var conn, core := s.nodes[c].conns[i], s.nodes[c].core;
    if Apply(cfg, s, SendNext(i)) != s {
      InvInput(cfg, s, i);
      InsideSizes(cfg, s);
      InsideInv(cfg, s, i, c);
      AvailableInRings(inp, src, cfg.sl);
      AvailableRoom(cfg, i, inp);
      GatherIsPayload(src, cfg.sl, inp.written, inp.timeslice);
      SenderBounds(conn, core.ends[i], core.acked, core.cw, cfg.rings[c]);
      var length := |Payload(src, cfg.sl, inp.timeslice)|;
      SendNeedsRoom(conn.snd, cfg.rings[c], cfg.maxPending, length);
      PendingBelow(conn.snd, cfg.rings[c], cfg.maxPending, length);
    }
  }

  lemma PendingBelow(s: SenderEnd, r: Rings, maxPending: nat, length: nat)
    requires CanSend(s, r, maxPending, length)
    ensures maxPending > 0
  {
  }

  /** Only its own successful send changes what an input has to send and where. */
  lemma SendsOnly(cfg: Config, s: Sys, step: Step, i: nat)
    requires SysInv(cfg, s) && i < |s.inputs| && cfg.Valid() && Sized(cfg, s)
    requires step == SendNext(i) ==> Apply(cfg, s, step) == s
    ensures SentNothing(s, Apply(cfg, s, step), i)
  {
    hide SysInv, SameFlags;
    if step.SendNext? {
      OtherSends(cfg, s, step.i, i);
    } else if step.Finish? {
      FinishSends(cfg, s, step.i, i);
    } else {
      OtherFlags(cfg, s, step);
      SameSends(s, Apply(cfg, s, step), i);
    }
  }

  lemma SameSends(s: Sys, s': Sys, i: nat)
    requires SameFlags(s, s') && i < |s.inputs|
    ensures SentNothing(s, s', i)
  {
    forall c: nat | Inside(s, i, c) && Inside(s', i, c)
      ensures s'.nodes[c].conns[i].snd.cnWp == s.nodes[c].conns[i].snd.cnWp
    {
      assert SameNodeFlags(s.nodes[c], s'.nodes[c]);
      assert SameConnFlags(s.nodes[c].conns[i], s'.nodes[c].conns[i]);
    }
  }

  lemma OtherSends(cfg: Config, s: Sys, k: nat, i: nat)
    requires cfg.Valid() && Sized(cfg, s) && i < |s.inputs| && (k == i ==> Apply(cfg, s, SendNext(k)) == s)
    ensures SentNothing(s, Apply(cfg, s, SendNext(k)), i)
  {
    hide Send, Gather, Available;
  }

  lemma FinishSends(cfg: Config, s: Sys, k: nat, i: nat)
    requires cfg.Valid() && Sized(cfg, s) && i < |s.inputs|
    ensures SentNothing(s, Apply(cfg, s, Finish(k)), i)
  {
    hide First;
  }

  // ---- refused for ever ----------------------------------------------------------------------------

  lemma RefusedStep(cfg: Config, s: Sys, step: Step, i: nat)
    requires SysInv(cfg, s) && i < |s.inputs| && cfg.Valid() && Sized(cfg, s) && !NextFits(cfg, s, i)
    ensures SentNothing(s, Apply(cfg, s, step), i) && !NextFits(cfg, Apply(cfg, s, step), i)
  {
    hide SysInv, DrainedFits, Payload, Apply;
    if step == SendNext(i) {
      SendNeeds(cfg, s, i);
    }
    SendsOnly(cfg, s, step, i);
    var s' := Apply(cfg, s, step);
    ApplyKeeps(cfg, s, step);
    InsideSizes(cfg, s);
    InsideSizes(cfg, s');
    assert Inside(s, i, TargetNode(cfg, s.inputs[i].timeslice));
  }

  /** A timeslice that fits neither behind nor before the write pointer of its target is never
      sent, whatever is acknowledged and whatever else happens. */
  lemma {:induction false} RefusedForever(cfg: Config, s: Sys, steps: seq<Step>, i: nat)
    requires SysInv(cfg, s) && i < |s.inputs| && cfg.Valid() && Sized(cfg, s) && !NextFits(cfg, s, i)
    ensures SentNothing(s, Run(cfg, s, steps), i) && !NextFits(cfg, Run(cfg, s, steps), i)
    ensures SysInv(cfg, Run(cfg, s, steps))
    decreases |steps|
  {
    hide SysInv, NextFits, Apply;
    if |steps| > 0 {
      var before, step := steps[..|steps| - 1], steps[|steps| - 1];
      RefusedForever(cfg, s, before, i);
      var s1 := Run(cfg, s, before);
      ApplyKeeps(cfg, s1, step);
      RefusedStep(cfg, s1, step, i);
      InsideSizes(cfg, s);
      InsideSizes(cfg, s1);
    }
  }

  // ---- exactly when a run can be completed ------------------------------------------------------------

  /** A send of timeslice `t` needs the room that `RoomFor` speaks of. */
  lemma RoomNeeded(cfg: Config, s: Sys, i: nat)
    requires SysInv(cfg, s) && Flags(cfg, s) && i < |s.inputs| && cfg.Valid() && Sized(cfg, s)
    ensures Apply(cfg, s, SendNext(i)) == s || RoomFor(cfg, i, s.inputs[i].timeslice)
  {
    hide SysInv, DrainedFits, Payload, Apply, SourceRoom, FlagsOf;
    InsideSizes(cfg, s);
    var c := TargetNode(cfg, s.inputs[i].timeslice);
    SendNeeds(cfg, s, i);
    PositionOf(cfg, s, i, c);
    assert Inside(s, i, c) && PlaceOf(cfg, i, c, s.nodes[c].conns[i]);
  }

  /** An input never gets past a timeslice without room. */
  lemma {:induction false} Capped(cfg: Config, s: Sys, steps: seq<Step>, i: nat, t: nat)
    requires SysInv(cfg, s) && Flags(cfg, s) && i < |s.inputs| && cfg.Valid() && Sized(cfg, s)
    requires s.inputs[i].timeslice <= t && !RoomFor(cfg, i, t)
    ensures Run(cfg, s, steps).inputs[i].timeslice <= t
    decreases |steps|
  {
    hide SysInv, Flags, Apply, RoomFor;
    if |steps| > 0 {
      var before, step := steps[..|steps| - 1], steps[|steps| - 1];
      Capped(cfg, s, before, i, t);
      RunKeepsAll(cfg, s, before);
      var s1 := Run(cfg, s, before);
      if step == SendNext(i) {
        RoomNeeded(cfg, s1, i);
        SentOneMore(cfg, s1, i);
      } else {
        SendsOnly(cfg, s1, step, i);
      }
    }
  }

  lemma SentOneMore(cfg: Config, s: Sys, i: nat)
    requires cfg.Valid() && Sized(cfg, s) && i < |s.inputs|
    ensures Apply(cfg, s, SendNext(i)) == s
            || Apply(cfg, s, SendNext(i)).inputs[i].timeslice == s.inputs[i].timeslice + 1
  {
    hide Send, Gather, Available;
  }

  /** Some continuation completes the run. */
  ghost predicate CanFinish(cfg: Config, s: Sys)
  {
    cfg.Valid() && Sized(cfg, s) && exists steps :: Complete(cfg, Run(cfg, s, steps))
  }

  lemma FinishesBy(cfg: Config, s: Sys, steps: seq<Step>)
    requires cfg.Valid() && Sized(cfg, s) && Complete(cfg, Run(cfg, s, steps))
    ensures CanFinish(cfg, s)
  {
    hide Complete, Run, Sized;
  }

  /** A refused timeslice keeps the run from being completed. */
  lemma RefusedNoFinish(cfg: Config, s: Sys, i: nat)
    requires SysInv(cfg, s) && i < |s.inputs| && cfg.Valid() && Sized(cfg, s) && !NextFits(cfg, s, i)
    requires s.inputs[i].timeslice < cfg.maxTimeslices
    ensures !CanFinish(cfg, s)
  {
    hide SysInv, NextFits, Run;
    forall steps: seq<Step>
      ensures !Complete(cfg, Run(cfg, s, steps))
    {
      RefusedForever(cfg, s, steps, i);
      assert Run(cfg, s, steps).inputs[i].timeslice != cfg.maxTimeslices;
    }
  }

  /** From every state of every run in which nobody has asked for an abort, some continuation
      sends, works on and acknowledges all timeslices and ends every connection, if and only if
      every timeslice has room. */
  lemma CompleteExactly(cfg: Config, s0: Sys, steps: seq<Step>)
    requires cfg.Valid() && Init(cfg, s0) && Calm(steps)
    ensures CanFinish(cfg, Run(cfg, s0, steps)) <==> Roomy(cfg)
  {
    hide SysInv, Flags, Unasked, Complete, Apply, Run, RoomFor, CanFinish;
    if Roomy(cfg) {
      var s' := CanComplete(cfg, s0, steps);
      var more :| Calm(more) && Run(cfg, Run(cfg, s0, steps), more) == s';
      FinishesBy(cfg, Run(cfg, s0, steps), more);
    } else {
      var i: nat, t: nat :| i < |cfg.sources| && t < cfg.maxTimeslices && !RoomFor(cfg, i, t);
      InitInv(cfg, s0);
      InitFlags(cfg, s0);
      NoRoomNoFinish(cfg, s0, steps, i, t);
    }
  }

  lemma NoRoomNoFinish(cfg: Config, s0: Sys, steps: seq<Step>, i: nat, t: nat)
    requires cfg.Valid() && Init(cfg, s0) && SysInv(cfg, s0) && Flags(cfg, s0)
    requires i < |cfg.sources| && t < cfg.maxTimeslices && !RoomFor(cfg, i, t)
    ensures !CanFinish(cfg, Run(cfg, s0, steps))
  {
    hide SysInv, Flags, Apply, Run, RoomFor;
    InsideSizes(cfg, s0);
    forall more: seq<Step>
      ensures !Complete(cfg, Run(cfg, Run(cfg, s0, steps), more))
    {
      RunConcat(cfg, s0, steps, more);
      Capped(cfg, s0, steps + more, i, t);
      assert Run(cfg, s0, steps + more).inputs[i].timeslice != cfg.maxTimeslices;
    }
  }
}
