/** Concrete runs, so that the statements about reachable states are not about nothing: one input
    and one compute node up to a work item outstanding; the same with a second timeslice that is
    refused for ever; and two inputs, one of which an abort leaves waiting for ever. */
module Witness {
  import opened RingMath
  import opened Wire
  import opened InputChannelConnection
  import opened InputChannelSender
  import opened Connection
  import opened ComputeNode
  import opened System
  import opened SystemProofs
  import opened Runs
  import opened Room
  import opened Abort
  import opened Refusal
  import CN = ComputeNodeConnection
  import TB = TimesliceBuilder

  function Raw(): (r: seq<Byte>)
    ensures |r| == MICROSLICE_DESCRIPTOR_BYTES
  {
    seq(MICROSLICE_DESCRIPTOR_BYTES, _ => 0)
  }

  function Stream(): nat -> Microslice { (m: nat) => Microslice(0, 0, Raw()) }

  function Silence(): nat -> Byte { (p: nat) => 0 }

  function Only(): (src: Source) { Source(Stream(), Silence(), 0, 0, Rings(0, 0)) }

  function Ring(): (r: Rings) { Rings(0, 5) }

  function Plan(): (cfg: Config) { Config([Only()], [Ring()], Slicing(1, 0), 1, 1) }

  lemma PlanValid()
    ensures Plan().Valid() && Ring().DescSize() == 1 && Ring().DataSize() == 32
  {
    assert forall m: nat :: Only().Follows(m);
    assert Pow2(5) == 32;
  }

  function StartConn(): (c: Conn) { InitialConn([Descriptor(0, 0, 0, 0)], Raw()) }

  function State(inp: Input, core: TB.Core, c: Conn): (s: Sys) { Sys([inp], [Node(core, [c])]) }

  function Begin(): (s: Sys) { State(InitialInput(Only()), TB.InitialCore(1), StartConn()) }

  lemma BeginInit()
    ensures Init(Plan(), Begin())
  {
    PlanValid();
  }

  /** After the delivery of the microslice. */
  function Delivered1(): (inp: Input) { InitialInput(Only()).(written := 1) }

  lemma DeliverStep()
    ensures Plan().Valid() && Apply(Plan(), Begin(), Deliver(0)) == State(Delivered1(), TB.InitialCore(1), StartConn())
  {
    PlanValid();
  }

  lemma OneDescriptor(get: nat -> Microslice, first: nat)
    ensures DescBytes(get, first, 1) == get(first).raw
  {
    assert DescBytes(get, first, 0) == [];
    assert first + 1 - 1 == first;
  }

  lemma NoContent(get: nat -> Byte, from: nat)
    ensures DataBytes(get, from, from) == []
  {
  }

  lemma GatherOne(src: Source, sl: Slicing, written: nat, ts: nat, m: Microslice)
    requires sl.size > 0 && sl.Length() == 1 && m.size == 0 && forall k: nat :: src.ms(k) == m
    ensures Gather(src, sl, written, ts) == m.raw
  {
    hide Newest, DescBytes, DataBytes, Pow2, First;
    var g, first := src.RingMss(written), First(src, sl, ts);
    assert g(first) == src.RingMs(written, first) == m;
    OneDescriptor(g, first);
    NoContent(src.RingBytes(written), m.offset);
  }

  /** Replacing the only connection. */
  lemma SetOnly(inp: Input, core: TB.Core, c: Conn, c': Conn)
    ensures Set(State(inp, core, c), 0, 0, c') == State(inp, core, c')
  {
    assert [c][0 := c'] == [c'];
    assert [Node(core, [c])][0 := Node(core, [c'])] == [Node(core, [c'])];
  }

  function Item(): (d: Descriptor) { Descriptor(0, 0, 32, 1) }

  function Wp(): (p: Position) { Position(32, 1) }

  /** The connection after the timeslice and then the write pointers were posted. */
  function SentConn(): (c: Conn)
  {
    StartConn().(snd := INITIAL_SENDER.(cnWp := Wp(), pending := 1),
                 toNode := [DataWrite(0, Raw()), DescWrite(0, Item())],
                 sent := [Component(0, 0, Raw(), 1)])
  }

  function SyncedConn(): (c: Conn)
  {
    var m := InputStatus(Wp(), false, false);
    SentConn().(snd := INITIAL_SENDER.(cnWp := Wp(), pending := 1, ourTurn := false, sendMsg := m),
                toNode := [DataWrite(0, Raw()), DescWrite(0, Item()), Status(m)])
  }

  lemma SendStep()
    ensures Send(StartConn(), Ring(), 1, Raw(), 0, 1) == SentConn()
  {
    hide Pow2, CheckForBufferSpace;
    PlanValid();
    var s := INITIAL_SENDER;
    RemainderUnique(0, 32, 0, 0);
    RemainderUnique(0, 1, 0, 0);
    assert SkipRequired(s, Ring(), 32) == 0;
    CheckIsExact(s, Ring(), 32, 1);
    assert DataPackets(s, Ring(), 0, Raw()) == [DataWrite(0, Raw())];
    assert DescriptorPacket(s, Ring(), 0, Raw(), 0, 1) == DescWrite(0, Item());
  }

  lemma SyncStep()
    ensures Sync(SentConn()) == SyncedConn()
  {
    var e := TrySync(SentConn().snd);
    assert Posted(e.out) == [Status(InputStatus(Wp(), false, false))];
  }

  /** The connection with everything landed and the status message in the receive buffer. */
  function LandedConn(): (c: Conn)
  {
    SyncedConn().(toNode := [], arrived := Some(InputStatus(Wp(), false, false)),
                  desc := [Item()], data := Raw(), landedData := 1, landedDesc := 1)
  }

  lemma LandSteps()
    ensures Land(Land(Land(SyncedConn()))) == LandedConn()
  {
    var c := SyncedConn();
    var c1 := Land(c);
    assert c.data[..0] + Raw() + c.data[32..] == Raw();
    assert c1.toNode == [DescWrite(0, Item()), c.toNode[2]];
    var c2 := Land(c1);
    assert c2.toNode == [c.toNode[2]];
    assert c2.desc == [Item()];
    var c3 := Land(c2);
    assert c3.toNode == [];
  }

  /** The compute node answers and sends the work item. */
  lemma NodeStep()
    ensures var n := HandleStatus(Node(TB.InitialCore(1), [LandedConn()]), 0);
            n.core.acked == 0 && n.core.cw == 1 && n.core.outstanding == {0} && n.core.items == [TB.WorkItem(0, 0)]
  {
    hide Pow2;
    var core := TB.InitialCore(1);
    var ends := core.ends[0 := CN.ReceiveStatus(core.ends[0], InputStatus(Wp(), false, false))];
    assert TB.MinElement(ends, |ends|) == 0;
    var ring := LandedConn().desc;
    RemainderUnique(0, 1, 0, 0);
    assert TB.ItemsFor(ring, 0, 0) == [];
    assert TB.ItemsFor(ring, 0, 1) == [TB.WorkItem(0, 0)];
    assert TB.Positions(0, 1) == {0};
  }

  lemma SendNextStep()
    ensures Plan().Valid()
    ensures Apply(Plan(), State(Delivered1(), TB.InitialCore(1), StartConn()), SendNext(0))
            == State(Delivered1().(timeslice := 1), TB.InitialCore(1), SentConn())
  {
    hide Send, Gather, Pow2, StepSend;
    PlanValid();
    GatherOne(Only(), Slicing(1, 0), 1, 0, Microslice(0, 0, Raw()));
    SendStep();
    SendOnly(Plan(), Delivered1(), TB.InitialCore(1), StartConn(), SentConn());
  }

  /** Sending the next timeslice with one input and one compute node. */
  lemma SendOnly(cfg: Config, inp: Input, core: TB.Core, c: Conn, c': Conn)
    requires |cfg.sources| == |cfg.rings| == 1 && cfg.sl.size > 0
    requires inp.timeslice < cfg.maxTimeslices && !inp.abort && !inp.finalizing
    requires Available(inp, cfg.sources[0], cfg.sl)
    requires var payload := Gather(cfg.sources[0], cfg.sl, inp.written, inp.timeslice);
             c' == Send(c, cfg.rings[0], cfg.maxPending, payload, inp.timeslice, cfg.sl.Length())
    requires |c'.sent| > |c.sent|
    ensures StepSend(cfg, State(inp, core, c), 0) == State(inp.(timeslice := inp.timeslice + 1), core, c')
  {
    hide Send, Gather, Set;
    SetOnly(inp, core, c, c');
    assert inp.timeslice % 1 == 0;
    var inp' := inp.(timeslice := inp.timeslice + 1);
    assert [inp][0 := inp'] == [inp'];
  }

  /** A step of the connection alone. */
  lemma ConnStep(inp: Input, core: TB.Core, c: Conn, c': Conn, step: Step)
    requires |core.ends| == 1
    requires (step == SyncPointers(0, 0) && c' == Sync(c)) || (step == Arrive(0, 0) && c' == Land(c))
    ensures Plan().Valid() && Sized(Plan(), State(inp, core, c))
    ensures Apply(Plan(), State(inp, core, c), step) == State(inp, core, c')
  {
    hide Sync, Land, Set;
    PlanValid();
    SetOnly(inp, core, c, c');
  }

  lemma StatusStep(inp: Input, core: TB.Core, c: Conn)
    requires |core.ends| == 1
    ensures Plan().Valid() && Sized(Plan(), State(inp, core, c))
    ensures Apply(Plan(), State(inp, core, c), NodeStatusStep(0, 0)).nodes[0] == HandleStatus(Node(core, [c]), 0)
  {
    hide HandleStatus;
    PlanValid();
  }

  /** The whole run. */
  lemma WorkItemReachable() returns (s: Sys)
    ensures Reachable(Plan(), s) && Sized(Plan(), s)
    ensures s.nodes[0].core.acked == 0 && s.nodes[0].core.cw == 1 && s.nodes[0].core.outstanding == {0}
  {
    hide Send, Gather, Raw, Sync, Land, HandleStatus, Apply, Run, SyncedConn, SentConn, LandedConn, StartConn;
    PlanValid();
    BeginInit();
    DeliverStep();
    SendNextStep();
    SyncStep();
    LandSteps();
    NodeStep();
    var inp, core := Delivered1().(timeslice := 1), TB.InitialCore(1);
    var c := SyncedConn();
    ConnStep(inp, core, SentConn(), c, SyncPointers(0, 0));
    ConnStep(inp, core, c, Land(c), Arrive(0, 0));
    ConnStep(inp, core, Land(c), Land(Land(c)), Arrive(0, 0));
    ConnStep(inp, core, Land(Land(c)), LandedConn(), Arrive(0, 0));
    StatusStep(inp, core, LandedConn());
    var cfg, s0 := Plan(), Begin();
    var steps, s1 := RunOne(cfg, s0, [], s0, Deliver(0));
    steps, s1 := RunOne(cfg, s0, steps, s1, SendNext(0));
    steps, s1 := RunOne(cfg, s0, steps, s1, SyncPointers(0, 0));
    steps, s1 := RunOne(cfg, s0, steps, s1, Arrive(0, 0));
    steps, s1 := RunOne(cfg, s0, steps, s1, Arrive(0, 0));
    steps, s1 := RunOne(cfg, s0, steps, s1, Arrive(0, 0));
    steps, s := RunOne(cfg, s0, steps, s1, NodeStatusStep(0, 0));
  }

  lemma RunOne(cfg: Config, s0: Sys, steps: seq<Step>, s: Sys, step: Step) returns (steps': seq<Step>, s': Sys)
    requires cfg.Valid() && Sized(cfg, s0) && ((steps == [] && s == s0) || s == Run(cfg, s0, steps)) && Sized(cfg, s)
    ensures steps' == steps + [step] && s' == Run(cfg, s0, steps') == Apply(cfg, s, step) && Sized(cfg, s')
  {
    hide Apply;
    steps' := steps + [step];
    assert steps'[..|steps'| - 1] == steps;
    s' := Run(cfg, s0, steps');
  }

  // ---- a refusal ------------------------------------------------------------------------------------

  /** An empty microslice, then microslices of one byte. */
  function Growing(): nat -> Microslice
  {
    (m: nat) => if m == 0 then Microslice(0, 0, Raw()) else Microslice(m - 1, 1, Raw())
  }

  function Grower(): (src: Source) { Source(Growing(), Silence(), 0, 0, Rings(0, 0)) }

  function GrowPlan(): (cfg: Config) { Config([Grower()], [Rings(1, 6)], Slicing(1, 0), 2, 1) }

  function GrowConn(): (c: Conn) { InitialConn([Descriptor(0, 0, 0, 0), Descriptor(0, 0, 0, 0)], Raw() + Raw()) }

  function GrowBegin(): (s: Sys) { State(InitialInput(Grower()), TB.InitialCore(1), GrowConn()) }

  lemma GrowerValid()
    ensures Grower().Valid()
  {
    hide Pow2;
    assert forall m: nat :: Grower().Follows(m);
    forall m: nat
      ensures |Grower().ms(m).raw| == MICROSLICE_DESCRIPTOR_BYTES
    {
      assert Growing()(m).raw == Raw();
    }
  }

  lemma GrowInit()
    ensures GrowPlan().Valid() && Init(GrowPlan(), GrowBegin())
    ensures Rings(1, 6).Valid() && Rings(1, 6).DescSize() == 2 && Rings(1, 6).DataSize() == 64
  {
    assert Pow2(6) == 64 && Pow2(1) == 2;
    GrowerValid();
  }

  /** The first timeslice has 32 bytes, the second 33. */
  lemma GrowSizes()
    ensures |Payload(Grower(), Slicing(1, 0), 0)| == 32 && |Payload(Grower(), Slicing(1, 0), 1)| == 33
    ensures Gather(Grower(), Slicing(1, 0), 1, 0) == Payload(Grower(), Slicing(1, 0), 0)
  {
    hide Newest, DescBytes, Raw;
    var src, sl := Grower(), Slicing(1, 0);
    GrowInit();
    OneDescriptor(src.ms, 0);
    OneDescriptor(src.ms, 1);
    assert InRings(src, sl, 1, 0);
    GatherIsPayload(src, sl, 1, 0);
  }

  /** The first timeslice leaves the write pointer in the middle of the ring. */
  lemma GrowSend(c': Conn, payload: seq<Byte>)
    requires |payload| == 32 && c' == Send(GrowConn(), Rings(1, 6), 1, payload, 0, 1)
    ensures |c'.sent| > |GrowConn().sent| && c'.snd.cnWp.data == 32
  {
    GrowInit();
    hide Pow2;
    RemainderUnique(0, 64, 0, 0);
    assert SkipRequired(INITIAL_SENDER, Rings(1, 6), 32) == 0;
    CheckIsExact(INITIAL_SENDER, Rings(1, 6), 32, 1);
  }

  lemma GrowSteps(inp: Input, core: TB.Core)
    requires inp == InitialInput(Grower()).(written := 1) && core == TB.InitialCore(1)
    ensures GrowPlan().Valid() && Sized(GrowPlan(), GrowBegin()) && Sized(GrowPlan(), State(inp, core, GrowConn()))
    ensures Apply(GrowPlan(), GrowBegin(), Deliver(0)) == State(inp, core, GrowConn())
    ensures Apply(GrowPlan(), State(inp, core, GrowConn()), SendNext(0))
            == StepSend(GrowPlan(), State(inp, core, GrowConn()), 0)
  {
    hide StepSend;
    GrowInit();
  }

  /** Both steps. */
  lemma GrowRun() returns (c: Conn)
    ensures GrowPlan().Valid() && Init(GrowPlan(), GrowBegin()) && c.snd.cnWp.data == 32
    ensures Run(GrowPlan(), GrowBegin(), [Deliver(0), SendNext(0)])
            == State(InitialInput(Grower()).(written := 1, timeslice := 1), TB.InitialCore(1), c)
  {
    hide Send, Gather, Payload, Pow2, GrowConn, Apply, Run, Init;
    var cfg, s0 := GrowPlan(), GrowBegin();
    GrowInit();
    GrowSizes();
    var core, inp := TB.InitialCore(1), InitialInput(Grower()).(written := 1);
    var payload := Gather(Grower(), cfg.sl, 1, 0);
    c := Send(GrowConn(), Rings(1, 6), 1, payload, 0, 1);
    GrowSend(c, payload);
    SendOnly(cfg, inp, core, GrowConn(), c);
    GrowSteps(inp, core);
    var steps, s1 := RunOne(cfg, s0, [], s0, Deliver(0));
    var s;
    steps, s := RunOne(cfg, s0, steps, s1, SendNext(0));
    assert steps == [Deliver(0), SendNext(0)];
  }

  /** A run after which the next timeslice, one byte more than half the ring, is refused for
      ever: no continuation sends it, and none completes the run. */
  lemma RefusalReachable() returns (s: Sys)
    ensures GrowPlan().Valid() && Init(GrowPlan(), GrowBegin())
    ensures s == Run(GrowPlan(), GrowBegin(), [Deliver(0), SendNext(0)]) && s.inputs[0].timeslice == 1
    ensures SysInv(GrowPlan(), s) && !NextFits(GrowPlan(), s, 0) && !CanFinish(GrowPlan(), s)
  {
    hide Payload, Pow2, SysInv, CanFinish, Apply, Run, Init;
    var cfg, s0 := GrowPlan(), GrowBegin();
    var c := GrowRun();
    GrowInit();
    GrowSizes();
    var steps := [Deliver(0), SendNext(0)];
    s := Run(cfg, s0, steps);
    RunKeeps(cfg, s0, steps);
    RemainderUnique(1, 1, 1, 0);
    RemainderUnique(32, 64, 0, 32);
    RefusedNoFinish(cfg, s, 0);
  }

  // ---- two inputs ------------------------------------------------------------------------------------

  function TwoPlan(): (cfg: Config) { Config([Only(), Only()], [Rings(0, 6)], Slicing(1, 0), 1, 1) }

  function TwoBegin(): (s: Sys)
  {
    var c := InitialConn([Descriptor(0, 0, 0, 0)], Raw() + Raw());
    Sys([InitialInput(Only()), InitialInput(Only())], [Node(TB.InitialCore(2), [c, c])])
  }

  /** There is a configuration with room for everything, and it has an initial state. */
  lemma TwoRoomy()
    ensures TwoPlan().Valid() && Roomy(TwoPlan()) && Init(TwoPlan(), TwoBegin())
  {
    hide RoomFor;
    assert Pow2(6) == 64;
    assert forall m: nat :: Only().Follows(m);
    var cfg := TwoPlan();
    forall i, t: nat | 0 <= i < |cfg.sources| && t < cfg.maxTimeslices
      ensures RoomFor(cfg, i, t)
    {
      OnlyRoom(cfg, i, t);
    }
  }

  lemma OnlyRoom(cfg: Config, i: nat, t: nat)
    requires cfg.Valid() && i < |cfg.sources| && cfg.sources[i] == Only() && cfg.sl == Slicing(1, 0)
    requires cfg.maxPending > 0
    requires forall c :: 0 <= c < |cfg.rings| ==> cfg.rings[c].DataSize() >= 64
    ensures RoomFor(cfg, i, t)
  {
    hide First, DescBytes, DataBytes, Raw, RoomFor;
    var src, first := Only(), First(Only(), cfg.sl, t);
    assert src.ms(first) == Microslice(0, 0, Raw());
    OneDescriptor(src.ms, first);
    NoContent(src.data, 0);
    assert Payload(src, cfg.sl, t) == Raw();
    HalfIsRoom(cfg, i, t);
  }

  /** An abort after one input has finished leaves a connection that never ends. */
  lemma StuckExample() returns (steps: seq<Step>)
    ensures TwoPlan().Valid() && Init(TwoPlan(), TwoBegin()) && !CanEnd(TwoPlan(), Run(TwoPlan(), TwoBegin(), steps))
  {
    hide Init, Run, Roomy, CanEnd;
    TwoRoomy();
    steps := StuckReachable(TwoPlan(), TwoBegin());
  }
}
