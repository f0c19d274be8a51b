/** Every step of the system keeps the invariant, hence every run does. */
module SystemProofs {
  import opened RingMath
  import opened Wire
  import opened Reorder
  import opened InputChannelSender
  import opened Connection
  import opened ComputeNode
  import opened System
  import TB = TimesliceBuilder

  // ---- arithmetic of the round-robin distribution ---------------------------------------

  lemma TsAtUnique(p: nat, c: nat, q: nat, d: nat, n: nat)
    requires c < n && d < n && TsAt(p, c, n) == TsAt(q, d, n)
    ensures p == q && c == d
  {
    RemainderUnique(TsAt(p, c, n), n, p, c);
    RemainderUnique(TsAt(q, d, n), n, q, d);
  }

  lemma TsAtOf(ts: nat, n: nat)
    requires n > 0
    ensures TsAt(ts / n, ts % n, n) == ts
  {
  }

  lemma TsAtMonotone(p: nat, q: nat, c: nat, n: nat)
    requires n > 0
    ensures TsAt(p, c, n) < TsAt(q, c, n) <==> p < q
  {
    MultipleBounds(q - p, n);
    assert TsAt(q, c, n) - TsAt(p, c, n) == (q - p) * n;
  }

  /** The next timeslice goes to the next free position of its compute node. */
  lemma NextPosition(inp: Input, conn: Conn, src: Source, sl: Slicing, n: nat)
    requires n > 0
    requires Linked(inp, conn, src, sl, inp.timeslice % n, n)
    ensures TsAt(|conn.sent|, inp.timeslice % n, n) == inp.timeslice
  {
    var c, q := inp.timeslice % n, inp.timeslice / n;
    TsAtOf(inp.timeslice, n);
    assert q >= |conn.sent| by { assert !(TsAt(q, c, n) < inp.timeslice); }
    assert !(TsAt(|conn.sent|, c, n) < inp.timeslice);
    TsAtMonotone(|conn.sent|, q, c, n);
  }

  // ---- Linked under the kinds of change a step makes --------------------------------------

  lemma LinkedSame(inp: Input, conn: Conn, inp': Input, conn': Conn, src: Source, sl: Slicing, c: nat, n: nat)
    requires inp.ackedDesc == inp'.ackedDesc
    requires Linked(inp, conn, src, sl, c, n)
    requires inp'.timeslice == inp.timeslice && inp'.done == inp.done
    requires conn'.sent == conn.sent && conn'.polled == conn.polled
    ensures Linked(inp', conn', src, sl, c, n)
  {
    SameAckedTs(inp, inp', src, sl);
    hide AckedTs, Carries;
  }

  lemma LinkedSent(inp: Input, conn: Conn, conn': Conn, src: Source, sl: Slicing, n: nat, k: Component)
    requires InputInv(inp, src, sl) && n > 0
    requires Linked(inp, conn, src, sl, inp.timeslice % n, n)
    requires conn'.sent == conn.sent + [k] && conn'.polled == conn.polled
    requires Carries(k, src, sl, inp.timeslice)
    ensures Linked(inp.(timeslice := inp.timeslice + 1), conn', src, sl, inp.timeslice % n, n)
  {
    var c := inp.timeslice % n;
    var inp' := inp.(timeslice := inp.timeslice + 1);
    NextPosition(inp, conn, src, sl, n);
    SameAckedTs(inp, inp', src, sl);
    hide AckedTs, Carries, InputInv;
    forall p: nat
      ensures p < |conn'.sent| <==> TsAt(p, c, n) < inp'.timeslice
    {
      TsAtMonotone(p, |conn'.sent|, c, n);
      TsAtMonotone(|conn.sent|, p, c, n);
    }
    assert !IsCompleted(AckedTs(inp, src, sl), inp.done, inp.timeslice) by { NotYetCompleted(inp, src, sl); }
  }

  lemma NotYetCompleted(inp: Input, src: Source, sl: Slicing)
    requires InputInv(inp, src, sl)
    ensures !IsCompleted(AckedTs(inp, src, sl), inp.done, inp.timeslice)
  {
  }

  lemma LinkedSentElsewhere(inp: Input, conn: Conn, src: Source, sl: Slicing, c: nat, n: nat)
    requires c < n && c != inp.timeslice % n
    requires Linked(inp, conn, src, sl, c, n)
    ensures Linked(inp.(timeslice := inp.timeslice + 1), conn, src, sl, c, n)
  {
    var inp' := inp.(timeslice := inp.timeslice + 1);
    SameAckedTs(inp, inp', src, sl);
    hide AckedTs, Carries;
    forall p: nat
      ensures p < |conn.sent| <==> TsAt(p, c, n) < inp'.timeslice
    {
      if TsAt(p, c, n) == inp.timeslice {
        RemainderUnique(inp.timeslice, n, p, c);
      }
    }
  }

  /** The completion seen on connection `c` is the one the input counts. */
  lemma LinkedPolled(inp: Input, inp': Input, conn: Conn, conn': Conn, src: Source, sl: Slicing, c: nat, n: nat,
                     c0: nat, ts: nat)
    requires sl.size > 0 && inp.ackedDesc >= src.startDesc && inp'.ackedDesc >= src.startDesc
    requires c < n && c0 < n
    requires Linked(inp, conn, src, sl, c, n)
    requires inp'.timeslice == inp.timeslice
    requires forall t: nat :: IsCompleted(AckedTs(inp', src, sl), inp'.done, t) <==>
               (IsCompleted(AckedTs(inp, src, sl), inp.done, t) || t == ts)
    requires exists q: nat :: ts == TsAt(q, c0, n)
    requires conn'.sent == conn.sent
    requires c == c0 ==>
               conn.polled < |conn.sent| && conn'.polled == conn.polled + 1 && ts == TsAt(conn.polled, c, n)
    requires c != c0 ==> conn'.polled == conn.polled
    ensures Linked(inp', conn', src, sl, c, n)
  {
    hide AckedTs, Carries, TsAt;
    var q :| ts == TsAt(q, c0, n);
    forall p: nat | p < |conn.sent|
      ensures p < conn'.polled <==> IsCompleted(AckedTs(inp', src, sl), inp'.done, TsAt(p, c, n))
    {
      if TsAt(p, c, n) == ts {
        TsAtUnique(p, c, q, c0, n);
        if c == c0 {
          TsAtUnique(p, c, conn.polled, c, n);
        }
      }
    }
  }

  // ---- composing the parts ----------------------------------------------------------------

  lemma LinkedCarries(inp: Input, conn: Conn, src: Source, sl: Slicing, c: nat, n: nat, p: nat)
    requires Linked(inp, conn, src, sl, c, n) && p < |conn.sent|
    ensures sl.size > 0 && Carries(conn.sent[p], src, sl, TsAt(p, c, n))
  {
  }

  lemma InputOnly(cfg: Config, s: Sys, i: nat, inp': Input)
    requires SysInv(cfg, s) && i < |s.inputs|
    requires InputInv(inp', cfg.sources[i], cfg.sl)
    requires inp'.timeslice == s.inputs[i].timeslice && inp'.ackedDesc == s.inputs[i].ackedDesc
    requires inp'.done == s.inputs[i].done
    ensures SysInv(cfg, s.(inputs := s.inputs[i := inp']))
  {
    hide NodeInv, Linked;
    var s' := s.(inputs := s.inputs[i := inp']);
    forall j, c | 0 <= j < |s'.inputs| && 0 <= c < |s'.nodes|
      ensures Linked(s'.inputs[j], s'.nodes[c].conns[j], cfg.sources[j], cfg.sl, c, |s'.nodes|)
    {
      if j == i {
        LinkedSame(s.inputs[i], s.nodes[c].conns[i], inp', s.nodes[c].conns[i], cfg.sources[i], cfg.sl, c, |s.nodes|);
      }
    }
    hide InputInv;
  }

  /** A change inside node `c` that leaves the history of every connection alone. */
  lemma NodeOnly(cfg: Config, s: Sys, c: nat, node': Node)
    requires SysInv(cfg, s) && c < |s.nodes|
    requires NodeInv(node', cfg.rings[c])
    requires |node'.conns| == |s.nodes[c].conns| == |node'.core.ends|
    requires forall i :: 0 <= i < |node'.conns| ==> SameHistory(s.nodes[c].conns[i], node'.conns[i])
    ensures SysInv(cfg, s.(nodes := s.nodes[c := node']))
  {
    hide InputInv, NodeInv, Linked;
    var s' := s.(nodes := s.nodes[c := node']);
    forall j, d | 0 <= j < |s'.inputs| && 0 <= d < |s'.nodes|
      ensures Linked(s'.inputs[j], s'.nodes[d].conns[j], cfg.sources[j], cfg.sl, d, |s'.nodes|)
    {
      if d == c {
        LinkedSame(s.inputs[j], s.nodes[c].conns[j], s.inputs[j], node'.conns[j], cfg.sources[j], cfg.sl, c, |s.nodes|);
      }
    }
  }

  ghost predicate SameHistory(c: Conn, c': Conn) { c'.sent == c.sent && c'.polled == c.polled }

  /** A change of connection `i` of node `c` together with input `i`. */
  lemma Both(cfg: Config, s: Sys, i: nat, c: nat, conn': Conn, inp': Input)
    requires cfg.Valid() && Sized(cfg, s) && i < |s.inputs| && c < |s.nodes|
    requires InputInv(inp', cfg.sources[i], cfg.sl)
    requires Linked(inp', conn', cfg.sources[i], cfg.sl, c, |s.nodes|)
    requires forall d :: 0 <= d < |s.nodes| && d != c ==>
               Linked(inp', s.nodes[d].conns[i], cfg.sources[i], cfg.sl, d, |s.nodes|)
    requires NodeInv(WithConn(s.nodes[c], i, conn'), cfg.rings[c]) && SysInv(cfg, s)
    ensures SysInv(cfg, Set(s, i, c, conn').(inputs := s.inputs[i := inp']))
  {
    hide InputInv, NodeInv, Linked;
  }

  lemma NodeParts(n: Node, i: nat, r: Rings)
    requires NodeInv(n, r) && i < |n.conns|
    ensures |n.core.ends| == |n.conns|
    ensures ConnInv(n.conns[i], n.core.ends[i], n.core.acked, n.core.cw, r)
  {
    hide ConnInv;
  }

  // ---- initially ------------------------------------------------------------------------

  lemma InitInv(cfg: Config, s: Sys)
    requires cfg.Valid() && Init(cfg, s)
    ensures SysInv(cfg, s)
  {
    forall i | 0 <= i < |s.inputs|
      ensures InputInv(s.inputs[i], cfg.sources[i], cfg.sl)
    {
      InitialInputInv(cfg.sources[i], cfg.sl);
    }
    forall c | 0 <= c < |s.nodes|
      ensures NodeInv(s.nodes[c], cfg.rings[c])
    {
      InitialNodeInv(s.nodes[c], |s.inputs|, cfg.rings[c]);
    }
    forall i, c | 0 <= i < |s.inputs| && 0 <= c < |s.nodes|
      ensures Linked(s.inputs[i], s.nodes[c].conns[i], cfg.sources[i], cfg.sl, c, |s.nodes|)
    {
      assert Fresh(s.nodes[c].conns[i], cfg.rings[c]);
    }
    hide InputInv, NodeInv, Linked;
  }

  lemma InitialInputInv(src: Source, sl: Slicing)
    requires src.Valid() && sl.size > 0
    ensures InputInv(InitialInput(src), src, sl)
  {
    QuotientOfFirst(src, sl, 0);
  }

  lemma InitialNodeInv(n: Node, numInputs: nat, r: Rings)
    requires numInputs > 0 && r.Valid() && |n.conns| == numInputs
    requires n.core == TB.InitialCore(numInputs)
    requires forall i :: 0 <= i < numInputs ==> Fresh(n.conns[i], r)
    ensures NodeInv(n, r)
  {
    forall i | 0 <= i < numInputs
      ensures ConnInv(n.conns[i], n.core.ends[i], 0, 0, r)
    {
      InitialConnInv(n.conns[i].desc, n.conns[i].data, r);
    }
    hide ConnInv;
  }

  // ---- the steps --------------------------------------------------------------------------

  /** A step of one connection that is no send and no write completion. */
  lemma ConnOnly(cfg: Config, s: Sys, i: nat, c: nat, conn': Conn)
    requires SysInv(cfg, s) && i < |s.inputs| && c < |s.nodes|
    requires ConnInv(conn', s.nodes[c].core.ends[i], s.nodes[c].core.acked, s.nodes[c].core.cw, cfg.rings[c])
    requires SameHistory(s.nodes[c].conns[i], conn')
    requires s.nodes[c].conns[i].snd.done ==> conn'.snd.done
    ensures SysInv(cfg, Set(s, i, c, conn'))
  {
    hide ConnInv, Linked, InputInv;
    WithConnKeeps(s.nodes[c], i, conn', cfg.rings[c]);
    NodeOnly(cfg, s, c, WithConn(s.nodes[c], i, conn'));
  }

  lemma SyncPointersKeeps(cfg: Config, s: Sys, i: nat, c: nat)
    requires SysInv(cfg, s) && i < |s.inputs| && c < |s.nodes|
    ensures SysInv(cfg, Set(s, i, c, Sync(s.nodes[c].conns[i])))
  {
    hide ConnInv, NodeInv, Linked, InputInv;
    var n := s.nodes[c];
    NodeParts(n, i, cfg.rings[c]);
    SyncKeeps(n.conns[i], n.core.ends[i], n.core.acked, n.core.cw, cfg.rings[c]);
    ConnOnly(cfg, s, i, c, Sync(n.conns[i]));
  }

  lemma ArriveKeeps(cfg: Config, s: Sys, i: nat, c: nat)
    requires SysInv(cfg, s) && i < |s.inputs| && c < |s.nodes|
    ensures SysInv(cfg, Set(s, i, c, Land(s.nodes[c].conns[i])))
  {
    hide ConnInv, NodeInv, Linked, InputInv;
    var n := s.nodes[c];
    NodeParts(n, i, cfg.rings[c]);
    LandKeeps(n.conns[i], n.core.ends[i], n.core.acked, n.core.cw, cfg.rings[c]);
    ConnOnly(cfg, s, i, c, Land(n.conns[i]));
  }

  lemma InputStatusKeeps(cfg: Config, s: Sys, i: nat, c: nat)
    requires SysInv(cfg, s) && i < |s.inputs| && c < |s.nodes|
    ensures SysInv(cfg, StepInputStatus(s, i, c))
  {
    hide ConnInv, NodeInv, Linked;
    var n := s.nodes[c];
    if |n.conns[i].toInput| > 0 {
      NodeParts(n, i, cfg.rings[c]);
      ReceiveReplyKeeps(n.conns[i], n.core.ends[i], n.core.acked, n.core.cw, cfg.rings[c]);
      var s1 := Set(s, i, c, ReceiveReply(n.conns[i]));
      ConnOnly(cfg, s, i, c, ReceiveReply(n.conns[i]));
      var abort := s.inputs[i].abort || n.conns[i].toInput[0].requestAbort;
      SameAckedTs(s.inputs[i], s.inputs[i].(abort := abort), cfg.sources[i], cfg.sl);
      InputOnly(cfg, s1, i, s.inputs[i].(abort := abort));
    }
  }

  lemma SendNextKeeps(cfg: Config, s: Sys, i: nat)
    requires SysInv(cfg, s) && i < |s.inputs|
    ensures SysInv(cfg, StepSend(cfg, s, i))
  {
    hide ConnInv, NodeInv, Linked;
    var inp, src := s.inputs[i], cfg.sources[i];
    var c := TargetNode(cfg, inp.timeslice);
    var n := s.nodes[c];
    var conn := n.conns[i];
    var r := cfg.rings[c];
    var payload := Gather(src, cfg.sl, inp.written, inp.timeslice);
    var conn' := Send(conn, r, cfg.maxPending, payload, inp.timeslice, cfg.sl.Length());
    if inp.timeslice < cfg.maxTimeslices && !inp.abort && !inp.finalizing && Available(inp, src, cfg.sl)
       && |conn'.sent| > |conn.sent| {
      NodeParts(n, i, r);
      SendKeeps(conn, n.core.ends[i], n.core.acked, n.core.cw, r, cfg.maxPending, payload, inp.timeslice,
                cfg.sl.Length());
      var k := SendEffect(conn, n.core.ends[i], n.core.acked, n.core.cw, r, cfg.maxPending, payload, inp.timeslice,
                          cfg.sl.Length());
      WithConnKeeps(n, i, conn', r);
      ReadIndexSafe(inp, src, cfg.sl, inp.timeslice);
      GatherIsPayload(src, cfg.sl, inp.written, inp.timeslice);
      SentKeeps(inp, src, cfg.sl);
      LinkedSent(inp, conn, conn', src, cfg.sl, |s.nodes|, k);
      var inp' := inp.(timeslice := inp.timeslice + 1);
      forall d | 0 <= d < |s.nodes| && d != c
        ensures Linked(inp', s.nodes[d].conns[i], src, cfg.sl, d, |s.nodes|)
      {
        LinkedSentElsewhere(inp, s.nodes[d].conns[i], src, cfg.sl, d, |s.nodes|);
      }
      Both(cfg, s, i, c, conn', inp');
    }
  }

  lemma WriteDoneKeeps(cfg: Config, s: Sys, i: nat, c: nat)
    requires SysInv(cfg, s) && i < |s.inputs| && c < |s.nodes|
    ensures SysInv(cfg, StepWriteDone(cfg, s, i, c))
  {
    hide ConnInv, NodeInv, Linked, InputInv;
    var inp, src := s.inputs[i], cfg.sources[i];
    var n := s.nodes[c];
    var conn := n.conns[i];
    var r := cfg.rings[c];
    if conn.polled < conn.landedDesc && conn.polled < |conn.sent| && conn.snd.pending > 0
       && inp.ackedDesc >= src.startDesc {
      NodeParts(n, i, r);
      PollWriteKeeps(conn, n.core.ends[i], n.core.acked, n.core.cw, r);
      WithConnKeeps(n, i, PollWrite(conn), r);
      var ts := PolledTs(inp, conn, src, cfg.sl, c, |s.nodes|);
      WriteCompletedKeeps(inp, src, cfg.sl, ts);
      var inp' := WriteCompleted(inp, src, cfg.sl, ts);
      CompletedGrows(inp, inp', src, cfg.sl, ts);
      forall d | 0 <= d < |s.nodes|
        ensures Linked(inp', if d == c then PollWrite(conn) else s.nodes[d].conns[i], src, cfg.sl, d, |s.nodes|)
      {
        LinkedPolled(inp, inp', s.nodes[d].conns[i], if d == c then PollWrite(conn) else s.nodes[d].conns[i],
                     src, cfg.sl, d, |s.nodes|, c, ts);
      }
      Both(cfg, s, i, c, PollWrite(conn), inp');
    }
  }

  /** The next completion on a connection is for a timeslice not counted before. */
  lemma PolledTs(inp: Input, conn: Conn, src: Source, sl: Slicing, c: nat, n: nat) returns (ts: nat)
    requires InputInv(inp, src, sl) && Linked(inp, conn, src, sl, c, n)
    requires conn.polled < |conn.sent|
    ensures ts == conn.sent[conn.polled].tsNum == TsAt(conn.polled, c, n)
    ensures AckedTs(inp, src, sl) <= ts < inp.timeslice && ts !in inp.done
  {
    ts := TsAt(conn.polled, c, n);
    assert Carries(conn.sent[conn.polled], src, sl, ts);
  }

  lemma CompletedGrows(inp: Input, inp': Input, src: Source, sl: Slicing, ts: nat)
    requires InputInv(inp, src, sl) && InputInv(inp', src, sl)
    requires AckedTs(inp, src, sl) <= ts < inp.timeslice && ts !in inp.done
    requires AckedTs(inp', src, sl) == CompleteAcked(AckedTs(inp, src, sl), inp.done, ts)
    requires inp'.done == CompleteDone(AckedTs(inp, src, sl), inp.done, ts)
    ensures inp'.ackedDesc >= src.startDesc
    ensures forall t: nat :: IsCompleted(AckedTs(inp', src, sl), inp'.done, t) <==>
              (IsCompleted(AckedTs(inp, src, sl), inp.done, t) || t == ts)
  {
    var a, a' := AckedTs(inp, src, sl), AckedTs(inp', src, sl);
    CompleteRefinesSet(a, inp.done, ts);
    forall t: nat
      ensures IsCompleted(a', inp'.done, t) <==> (IsCompleted(a, inp.done, t) || t == ts)
    {
      assert t in Completed(a', inp'.done) <==> t in Completed(a, inp.done) + iset{ts};
    }
  }

  lemma FinishKeeps(cfg: Config, s: Sys, i: nat)
    requires SysInv(cfg, s) && i < |s.inputs|
    ensures SysInv(cfg, FinishAll(s.(inputs := s.inputs[i := s.inputs[i].(finalizing := true)]), i, s.inputs[i].abort))
  {
    hide ConnInv, NodeInv, Linked;
    var abort := s.inputs[i].abort;
    var inp' := s.inputs[i].(finalizing := true);
    SameAckedTs(s.inputs[i], inp', cfg.sources[i], cfg.sl);
    InputOnly(cfg, s, i, inp');
    var s1 := s.(inputs := s.inputs[i := inp']);
    var s' := FinishAll(s1, i, abort);
    forall c | 0 <= c < |s.nodes|
      ensures NodeInv(s'.nodes[c], cfg.rings[c])
    {
      var n := s.nodes[c];
      NodeParts(n, i, cfg.rings[c]);
      FinalizeKeeps(n.conns[i], n.core.ends[i], n.core.acked, n.core.cw, cfg.rings[c], abort);
      WithConnKeeps(n, i, FinalizeConn(n.conns[i], abort), cfg.rings[c]);
    }
    forall j, c | 0 <= j < |s'.inputs| && 0 <= c < |s'.nodes|
      ensures Linked(s'.inputs[j], s'.nodes[c].conns[j], cfg.sources[j], cfg.sl, c, |s'.nodes|)
    {
      LinkedSame(s1.inputs[j], s1.nodes[c].conns[j], s'.inputs[j], s'.nodes[c].conns[j], cfg.sources[j], cfg.sl, c,
                 |s.nodes|);
    }
    hide InputInv;
  }

  lemma NodeStepKeeps(cfg: Config, s: Sys, c: nat, node': Node)
    requires SysInv(cfg, s) && c < |s.nodes|
    requires NodeInv(node', cfg.rings[c])
    requires |node'.conns| == |s.nodes[c].conns| == |node'.core.ends|
    requires node'.conns == s.nodes[c].conns
    ensures SysInv(cfg, s.(nodes := s.nodes[c := node']))
  {
    hide ConnInv, NodeInv, Linked, InputInv;
    NodeOnly(cfg, s, c, node');
  }

  lemma NodeStatusKeeps(cfg: Config, s: Sys, i: nat, c: nat)
    requires SysInv(cfg, s) && c < |s.nodes|
    ensures SysInv(cfg, s.(nodes := s.nodes[c := HandleStatus(s.nodes[c], i)]))
  {
    hide ConnInv, NodeInv, Linked, InputInv;
    HandleStatusKeeps(s.nodes[c], i, cfg.rings[c]);
    NodeOnly(cfg, s, c, HandleStatus(s.nodes[c], i));
  }

  lemma DeliverKeeps(cfg: Config, s: Sys, i: nat)
    requires SysInv(cfg, s) && i < |s.inputs|
    ensures SysInv(cfg, s.(inputs := s.inputs[i := Produce(s.inputs[i], cfg.sources[i])]))
    ensures SysInv(cfg, s.(inputs := s.inputs[i := SyncSource(s.inputs[i])]))
  {
    hide ConnInv, NodeInv, Linked, InputInv;
    ProduceKeeps(s.inputs[i], cfg.sources[i], cfg.sl);
    InputOnly(cfg, s, i, Produce(s.inputs[i], cfg.sources[i]));
    SyncSourceKeeps(s.inputs[i], cfg.sources[i], cfg.sl);
    InputOnly(cfg, s, i, SyncSource(s.inputs[i]));
  }

  lemma ApplyKeeps(cfg: Config, s: Sys, step: Step)
    requires SysInv(cfg, s)
    ensures SysInv(cfg, Apply(cfg, s, step))
  {
    hide ConnInv, NodeInv, Linked, InputInv, Produce, SyncSource, Sync, Land, Set, FinishAll, StepSend, StepWriteDone,
         StepInputStatus, ApplyNode;
    match step
    case Deliver(i) => if i < |s.inputs| { DeliverKeeps(cfg, s, i); }
    case SyncRead(i) => if i < |s.inputs| { DeliverKeeps(cfg, s, i); }
    case SendNext(i) => if i < |s.inputs| { SendNextKeeps(cfg, s, i); }
    case SyncPointers(i, c) => if i < |s.inputs| && c < |s.nodes| { SyncPointersKeeps(cfg, s, i, c); }
    case WriteDone(i, c) => if i < |s.inputs| && c < |s.nodes| { WriteDoneKeeps(cfg, s, i, c); }
    case Finish(i) => if i < |s.inputs| { FinishKeeps(cfg, s, i); }
    case Arrive(i, c) => if i < |s.inputs| && c < |s.nodes| { ArriveKeeps(cfg, s, i, c); }
    case InputStatusStep(i, c) => if i < |s.inputs| && c < |s.nodes| { InputStatusKeeps(cfg, s, i, c); }
    case _ => ApplyNodeKeeps(cfg, s, step);
  }

  lemma ApplyNodeKeeps(cfg: Config, s: Sys, step: Step)
    requires SysInv(cfg, s)
    ensures SysInv(cfg, ApplyNode(cfg, s, step))
  {
    hide ConnInv, NodeInv, Linked, InputInv;
    match step
    case NodeStatusStep(i, c) => if c < |s.nodes| { NodeStatusKeeps(cfg, s, i, c); }
    case ItemDone(c, p) => if c < |s.nodes| {
      HandleCompletionKeeps(s.nodes[c], p, cfg.rings[c]);
      NodeStepKeeps(cfg, s, c, HandleCompletion(s.nodes[c], p));
    }
    case FinalSent(i, c) => if c < |s.nodes| {
      HandleFinalSentKeeps(s.nodes[c], i, cfg.rings[c]);
      NodeStepKeeps(cfg, s, c, HandleFinalSent(s.nodes[c], i));
    }
    case AskAbort(c) => if c < |s.nodes| {
      HandleAbortRequestKeeps(s.nodes[c], cfg.rings[c]);
      NodeStepKeeps(cfg, s, c, HandleAbortRequest(s.nodes[c]));
    }
    case Disconnect(i, c) => if c < |s.nodes| {
      HandleDisconnectKeeps(s.nodes[c], i, cfg.rings[c]);
      NodeStepKeeps(cfg, s, c, HandleDisconnect(s.nodes[c], i));
    }
    case _ =>
  }

  lemma {:induction false} RunKeeps(cfg: Config, s: Sys, steps: seq<Step>)
    requires cfg.Valid() && Init(cfg, s)
    ensures SysInv(cfg, Run(cfg, s, steps))
  {
    if |steps| == 0 {
      InitInv(cfg, s);
    } else {
      RunKeeps(cfg, s, steps[..|steps| - 1]);
      ApplyKeeps(cfg, Run(cfg, s, steps[..|steps| - 1]), steps[|steps| - 1]);
    }
  }
}
