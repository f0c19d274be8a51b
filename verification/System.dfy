/** All input nodes and all compute nodes together, and every run of them. */
module System {
  import opened Wire
  import opened InputChannelSender
  import opened Connection
  import opened ComputeNode
  import TB = TimesliceBuilder

  datatype Config = Config(
    sources: seq<Source>,   // one per input node
    rings: seq<Rings>,      // one per compute node
    sl: Slicing, maxTimeslices: nat, maxPending: nat)
  {
    ghost predicate Valid()
    {
      && |sources| > 0 && |rings| > 0 && sl.size > 0
      && (forall i :: 0 <= i < |sources| ==> sources[i].Valid())
      && (forall c :: 0 <= c < |rings| ==> rings[c].Valid())
    }
  }

  datatype Sys = Sys(inputs: seq<Input>, nodes: seq<Node>)

  /** The compute node a timeslice is sent to. */
  function TargetNode(cfg: Config, ts: nat): (c: nat)
    requires |cfg.rings| > 0
    ensures c < |cfg.rings|
  {
    ts % |cfg.rings|
  }

  /** The timeslice that belongs at position `p` of compute node `c` out of `n`. */
  function TsAt(p: nat, c: nat, n: nat): (ts: nat) { p * n + c }

  datatype Step =
    | Deliver(i: nat)             // the data source of input i delivers a microslice
    | SyncRead(i: nat)            // input i gives buffer space back to its data source
    | SendNext(i: nat)            // input i tries to send its next timeslice
    | SyncPointers(i: nat, c: nat)
    | WriteDone(i: nat, c: nat)   // a write completion reaches input i
    | Finish(i: nat)              // input i has sent everything, or aborts
    | Arrive(i: nat, c: nat)      // the oldest packet in flight lands
    | NodeStatusStep(i: nat, c: nat)
    | InputStatusStep(i: nat, c: nat)
    | ItemDone(c: nat, p: nat)    // a worker completes an item
    | FinalSent(i: nat, c: nat)
    | AskAbort(c: nat)
    | Disconnect(i: nat, c: nat)

  ghost predicate Sized(cfg: Config, s: Sys)
  {
    && |s.inputs| == |cfg.sources| && |s.nodes| == |cfg.rings|
    && forall c :: 0 <= c < |s.nodes| ==> |s.nodes[c].conns| == |s.inputs| == |s.nodes[c].core.ends|
  }

  /** Nothing sent, nothing received; the rings may hold anything. */
  ghost predicate Init(cfg: Config, s: Sys)
  {
    && Sized(cfg, s)
    && (forall i :: 0 <= i < |s.inputs| ==> s.inputs[i] == InitialInput(cfg.sources[i]))
    && (forall c :: 0 <= c < |s.nodes| ==> s.nodes[c].core == TB.InitialCore(|s.inputs|))
    && (forall c, i :: 0 <= c < |s.nodes| && 0 <= i < |s.inputs| ==> Fresh(s.nodes[c].conns[i], cfg.rings[c]))
  }

  ghost predicate Fresh(c: Conn, r: Rings)
  {
    && c == InitialConn(c.desc, c.data)
    && |c.desc| == r.DescSize() && |c.data| == r.DataSize()
  }

  function Set(s: Sys, i: nat, c: nat, conn: Conn): (s': Sys)
    requires c < |s.nodes| && i < |s.nodes[c].conns|
  {
    s.(nodes := s.nodes[c := WithConn(s.nodes[c], i, conn)])
  }

  function FinishAll(s: Sys, i: nat, abort: bool): (s': Sys)
    requires forall c :: 0 <= c < |s.nodes| ==> i < |s.nodes[c].conns|
  {
    s.(nodes := seq(|s.nodes|, c requires 0 <= c < |s.nodes| =>
         WithConn(s.nodes[c], i, FinalizeConn(s.nodes[c].conns[i], abort))))
  }

  /** The effect of one step; a step that is not enabled changes nothing. */
  ghost function Apply(cfg: Config, s: Sys, step: Step): (s': Sys)
    requires cfg.Valid() && Sized(cfg, s)
    ensures Sized(cfg, s')
  {
    match step
    case Deliver(i) =>
      if i < |s.inputs| then SetInput(cfg, s, i, Produce(s.inputs[i], cfg.sources[i])) else s
    case SyncRead(i) =>
      if i < |s.inputs| then SetInput(cfg, s, i, SyncSource(s.inputs[i])) else s
    case SendNext(i) =>
      if i < |s.inputs| then StepSend(cfg, s, i) else s
    case SyncPointers(i, c) =>
      if i < |s.inputs| && c < |s.nodes| then Set(s, i, c, Sync(s.nodes[c].conns[i])) else s
    case WriteDone(i, c) =>
      if i < |s.inputs| && c < |s.nodes| then StepWriteDone(cfg, s, i, c) else s
    case Finish(i) =>
      if i < |s.inputs| && MayFinish(cfg, s.inputs[i], i) then
        FinishAll(SetInput(cfg, s, i, s.inputs[i].(finalizing := true)), i, s.inputs[i].abort)
      else s
    case Arrive(i, c) =>
      if i < |s.inputs| && c < |s.nodes| then Set(s, i, c, Land(s.nodes[c].conns[i])) else s
    case InputStatusStep(i, c) =>
      if i < |s.inputs| && c < |s.nodes| then StepInputStatus(s, i, c) else s
    case _ => ApplyNode(cfg, s, step)
  }

  /** The steps that a compute node takes part in alone. */
  ghost function ApplyNode(cfg: Config, s: Sys, step: Step): (s': Sys)
    requires cfg.Valid() && Sized(cfg, s)
    ensures Sized(cfg, s')
  {
    match step
    case NodeStatusStep(i, c) =>
      if c < |s.nodes| then SetNode(cfg, s, c, HandleStatus(s.nodes[c], i)) else s
    case ItemDone(c, p) =>
      if c < |s.nodes| then SetNode(cfg, s, c, HandleCompletion(s.nodes[c], p)) else s
    case FinalSent(i, c) =>
      if c < |s.nodes| then SetNode(cfg, s, c, HandleFinalSent(s.nodes[c], i)) else s
    case AskAbort(c) =>
      if c < |s.nodes| then SetNode(cfg, s, c, HandleAbortRequest(s.nodes[c])) else s
    case Disconnect(i, c) =>
      if c < |s.nodes| then SetNode(cfg, s, c, HandleDisconnect(s.nodes[c], i)) else s
    case _ => s
  }

  ghost function SetInput(cfg: Config, s: Sys, i: nat, inp: Input): (s': Sys)
    requires Sized(cfg, s) && i < |s.inputs|
    ensures Sized(cfg, s')
  {
    s.(inputs := s.inputs[i := inp])
  }

  ghost function SetNode(cfg: Config, s: Sys, c: nat, n: Node): (s': Sys)
    requires Sized(cfg, s) && c < |s.nodes| && |n.conns| == |n.core.ends| == |s.inputs|
    ensures Sized(cfg, s')
  {
    s.(nodes := s.nodes[c := n])
  }

  /** Cut the next timeslice out of the source's rings and send it, if possible. */
  function StepSend(cfg: Config, s: Sys, i: nat): (s': Sys)
    requires cfg.sl.size > 0 && |cfg.rings| > 0 && |s.inputs| == |cfg.sources| && |s.nodes| == |cfg.rings|
    requires i < |s.inputs|
    requires forall c :: 0 <= c < |s.nodes| ==> |s.nodes[c].conns| == |s.inputs|
  {
    var inp := s.inputs[i];
    var c := TargetNode(cfg, inp.timeslice);
    var payload := Gather(cfg.sources[i], cfg.sl, inp.written, inp.timeslice);
    var conn := s.nodes[c].conns[i];
    if inp.timeslice < cfg.maxTimeslices && !inp.abort && !inp.finalizing && Available(inp, cfg.sources[i], cfg.sl) then
      var conn' := Send(conn, cfg.rings[c], cfg.maxPending, payload, inp.timeslice, cfg.sl.Length());
      if |conn'.sent| > |conn.sent| then
        Set(s, i, c, conn').(inputs := s.inputs[i := inp.(timeslice := inp.timeslice + 1)])
      else s
    else s
  }

  ghost function StepWriteDone(cfg: Config, s: Sys, i: nat, c: nat): (s': Sys)
    requires cfg.sl.size > 0 && |s.inputs| == |cfg.sources| && i < |s.inputs| && c < |s.nodes| && i < |s.nodes[c].conns|
  {
    var conn := s.nodes[c].conns[i];
    if conn.polled < conn.landedDesc && conn.polled < |conn.sent| && conn.snd.pending > 0
       && s.inputs[i].ackedDesc >= cfg.sources[i].startDesc then
      var inp := WriteCompleted(s.inputs[i], cfg.sources[i], cfg.sl, conn.sent[conn.polled].tsNum);
      Set(s, i, c, PollWrite(conn)).(inputs := s.inputs[i := inp])
    else s
  }

  /** The sending loop is over and all writes have completed. */
  predicate MayFinish(cfg: Config, inp: Input, i: nat)
    requires i < |cfg.sources|
  {
    && !inp.finalizing
    && (inp.abort || inp.timeslice >= cfg.maxTimeslices)
    && inp.ackedDesc >= First(cfg.sources[i], cfg.sl, inp.timeslice)
  }

  function StepInputStatus(s: Sys, i: nat, c: nat): (s': Sys)
    requires i < |s.inputs| && c < |s.nodes| && i < |s.nodes[c].conns|
  {
    var conn := s.nodes[c].conns[i];
    if |conn.toInput| > 0 then
      var abort := s.inputs[i].abort || conn.toInput[0].requestAbort;
      Set(s, i, c, ReceiveReply(conn)).(inputs := s.inputs[i := s.inputs[i].(abort := abort)])
    else s
  }

  ghost function Run(cfg: Config, s: Sys, steps: seq<Step>): (s': Sys)
    requires cfg.Valid() && Sized(cfg, s)
    ensures Sized(cfg, s')
  {
    if |steps| == 0 then s else Apply(cfg, Run(cfg, s, steps[..|steps| - 1]), steps[|steps| - 1])
  }

  // ---- the invariant -----------------------------------------------------------------

  /** What input `inp` has done on its connection to compute node `c` of `n`: position `p`
      is timeslice `p * n + c`, and the writes seen complete are those the input counts. */
  ghost predicate Linked(inp: Input, conn: Conn, src: Source, sl: Slicing, c: nat, n: nat)
  {
    && sl.size > 0 && inp.ackedDesc >= src.startDesc
    && conn.polled <= |conn.sent|
    && (forall p: nat :: p < |conn.sent| <==> TsAt(p, c, n) < inp.timeslice)
    && (forall p: nat :: p < |conn.sent| ==> Carries(conn.sent[p], src, sl, TsAt(p, c, n)))
    && (forall p: nat :: p < |conn.sent| ==>
          (p < conn.polled <==> IsCompleted(AckedTs(inp, src, sl), inp.done, TsAt(p, c, n))))
  }

  ghost predicate IsCompleted(acked: nat, done: set<nat>, t: nat) { t < acked || t in done }

  ghost predicate Carries(k: Component, src: Source, sl: Slicing, ts: nat)
    requires sl.size > 0
  {
    k.tsNum == ts && k.payload == Payload(src, sl, ts) && k.numMicroslices == sl.Length()
  }

  ghost predicate SysInv(cfg: Config, s: Sys)
  {
    && cfg.Valid() && Sized(cfg, s)
    && (forall i :: 0 <= i < |s.inputs| ==> InputInv(s.inputs[i], cfg.sources[i], cfg.sl))
    && (forall c :: 0 <= c < |s.nodes| ==> NodeInv(s.nodes[c], cfg.rings[c]))
    && (forall i, c :: 0 <= i < |s.inputs| && 0 <= c < |s.nodes| ==>
          Linked(s.inputs[i], s.nodes[c].conns[i], cfg.sources[i], cfg.sl, c, |s.nodes|))
  }
}
