/** What can still happen from a state: runs that continue it. */
module Continuation {
  import opened Wire
  import opened Connection
  import opened ComputeNode
  import opened InputChannelSender
  import opened System
  import opened SystemProofs
  import opened Cycle
  import CN = ComputeNodeConnection
  import TB = TimesliceBuilder

  // ---- continuations ---------------------------------------------------------------------------

  /** Steps in which no compute node asks for an abort. */
  predicate Calm(steps: seq<Step>) { forall k :: 0 <= k < |steps| ==> !steps[k].AskAbort? }

  /** `s'` can be reached from `s` without any request to abort. */
  ghost predicate Leads(cfg: Config, s: Sys, s': Sys)
  {
    cfg.Valid() && Sized(cfg, s) && Sized(cfg, s') && exists steps :: Calm(steps) && Run(cfg, s, steps) == s'
  }

  lemma {:induction false} RunConcat(cfg: Config, s: Sys, a: seq<Step>, b: seq<Step>)
    requires cfg.Valid() && Sized(cfg, s)
    ensures Run(cfg, s, a + b) == Run(cfg, Run(cfg, s, a), b)
    decreases |b|
  {
    hide Apply, Sized;
    if |b| == 0 {
      assert a + b == a;
    } else {
      var b' := b[..|b| - 1];
      assert (a + b)[..|a + b| - 1] == a + b';
      RunConcat(cfg, s, a, b');
    }
  }

  lemma LeadsSelf(cfg: Config, s: Sys)
    requires cfg.Valid() && Sized(cfg, s)
    ensures Leads(cfg, s, s)
  {
    hide Apply, Sized;
    assert Calm([]) && Run(cfg, s, []) == s;
  }

  lemma LeadsStep(cfg: Config, s: Sys, step: Step)
    requires SysInv(cfg, s) && !step.AskAbort?
    ensures Leads(cfg, s, Apply(cfg, s, step)) && SysInv(cfg, Apply(cfg, s, step))
  {
    hide Apply, SysInv;
    InvSized(cfg, s);
    ApplyKeeps(cfg, s, step);
    var steps := [step];
    assert steps[..0] == [];
    assert Run(cfg, s, steps[..0]) == s;
    assert Calm(steps) && Run(cfg, s, steps) == Apply(cfg, s, step);
  }

  lemma InvSized(cfg: Config, s: Sys)
    requires SysInv(cfg, s)
    ensures cfg.Valid() && Sized(cfg, s)
  {
    hide InputInv, NodeInv, Linked;
  }

  lemma LeadsOn(cfg: Config, s: Sys, s1: Sys, s2: Sys)
    requires Leads(cfg, s, s1) && Leads(cfg, s1, s2)
    ensures Leads(cfg, s, s2)
  {
    hide Run, Sized;
    var a :| Calm(a) && Run(cfg, s, a) == s1;
    var b :| Calm(b) && Run(cfg, s1, b) == s2;
    RunConcat(cfg, s, a, b);
    assert Calm(a + b) && Run(cfg, s, a + b) == s2;
  }

  // ---- moving the token of one connection -------------------------------------------------------

  ghost predicate Inside(s: Sys, i: nat, c: nat)
  {
    c < |s.nodes| && i < |s.inputs| && |s.nodes[c].conns| == |s.inputs| == |s.nodes[c].core.ends|
  }

  /** Input `i` and compute node `c` as one connection sees them. */
  ghost function PairOf(s: Sys, i: nat, c: nat): (p: Pair)
    requires Inside(s, i, c)
  {
    Pair(s.nodes[c].conns[i], s.nodes[c].core.ends[i], s.inputs[i].abort)
  }

  /** Of compute node `n` only connection `i` moved. */
  ghost predicate NodeMoved(n: Node, n': Node, i: nat, p: Pair)
    requires i < |n.conns| == |n.core.ends|
  {
    && n'.conns == n.conns[i := p.c] && n'.core.ends == n.core.ends[i := p.e]
    && NodeSame(n, n')
  }

  /** What moving tokens leaves alone in a compute node. */
  ghost predicate NodeSame(n: Node, n': Node)
  {
    && n'.core.acked == n.core.acked && n'.core.done == n.core.done && n'.core.disconnected == n.core.disconnected
    && (n.core.disconnected != {} ==> n'.core.cw == n.core.cw)
  }

  /** Only connection (i, c) moved, to `p`. */
  ghost predicate Moved(s: Sys, s': Sys, i: nat, c: nat, p: Pair)
  {
    && Inside(s, i, c)
    && s'.inputs == s.inputs[i := s.inputs[i].(abort := p.asked)]
    && |s'.nodes| == |s.nodes| && (forall d :: 0 <= d < |s.nodes| && d != c ==> s'.nodes[d] == s.nodes[d])
    && NodeMoved(s.nodes[c], s'.nodes[c], i, p)
  }

  function StepOf(op: Op, i: nat, c: nat): (s: Step)
    ensures !s.AskAbort?
  {
    match op
    case OpLand => Arrive(i, c)
    case OpSync => SyncPointers(i, c)
    case OpAnswer => NodeStatusStep(i, c)
    case OpReceive => InputStatusStep(i, c)
  }

  lemma InsideInv(cfg: Config, s: Sys, i: nat, c: nat)
    requires SysInv(cfg, s) && i < |cfg.sources| && c < |cfg.rings|
    ensures Inside(s, i, c) && |s.inputs| == |cfg.sources| && |s.nodes| == |cfg.rings|
    ensures NodeInv(s.nodes[c], cfg.rings[c])
    ensures PairInv(PairOf(s, i, c), s.nodes[c].core.acked, s.nodes[c].core.cw, cfg.rings[c])
  {
    hide InputInv, Linked, ConnInv, NodeInv;
    NodeParts(s.nodes[c], i, cfg.rings[c]);
  }

  /** The step for an operation has the effect of the operation, on that connection alone. */
  lemma OpMoves(cfg: Config, s: Sys, i: nat, c: nat, op: Op)
    requires SysInv(cfg, s) && i < |cfg.sources| && c < |cfg.rings|
    ensures Inside(s, i, c) && Moved(s, Apply(cfg, s, StepOf(op, i, c)), i, c, ApplyOp(PairOf(s, i, c), op))
  {
    hide InputInv, Linked, ConnInv, NodeInv, SysInv, Apply, ApplyOp, Moved;
    InsideInv(cfg, s, i, c);
    InvSized(cfg, s);
    match op
    case OpLand => LandMoves(cfg, s, i, c);
    case OpSync => SyncMoves(cfg, s, i, c);
    case OpReceive => ReceiveMoves(cfg, s, i, c);
    case OpAnswer =>
      RingsThere(s.nodes[c], cfg.rings[c]);
      AnswerMoves(cfg, s, i, c);
  }

  lemma LandMoves(cfg: Config, s: Sys, i: nat, c: nat)
    requires cfg.Valid() && Sized(cfg, s) && Inside(s, i, c)
    ensures Moved(s, Apply(cfg, s, Arrive(i, c)), i, c, ApplyOp(PairOf(s, i, c), OpLand))
  {
    hide Land;
  }

  lemma SyncMoves(cfg: Config, s: Sys, i: nat, c: nat)
    requires cfg.Valid() && Sized(cfg, s) && Inside(s, i, c)
    ensures Moved(s, Apply(cfg, s, SyncPointers(i, c)), i, c, ApplyOp(PairOf(s, i, c), OpSync))
  {
    hide Sync;
  }

  lemma ReceiveMoves(cfg: Config, s: Sys, i: nat, c: nat)
    requires cfg.Valid() && Sized(cfg, s) && Inside(s, i, c)
    ensures Moved(s, Apply(cfg, s, InputStatusStep(i, c)), i, c, ApplyOp(PairOf(s, i, c), OpReceive))
  {
    ReceiveNothing(s.nodes[c].conns[i]);
    hide ReceiveReply;
  }

  lemma AnswerMoves(cfg: Config, s: Sys, i: nat, c: nat)
    requires cfg.Valid() && Sized(cfg, s) && Inside(s, i, c) && |s.nodes[c].conns[0].desc| > 0
    ensures Moved(s, Apply(cfg, s, NodeStatusStep(i, c)), i, c, ApplyOp(PairOf(s, i, c), OpAnswer))
  {
    hide TB.MinElement, TB.Positions, TB.ItemsFor, CN.ReceiveStatus;
    var n := s.nodes[c];
    if n.conns[i].arrived.Some? {
      var n' := HandleStatus(n, i);
      assert n'.core.ends == n.core.ends[i := CN.ReceiveStatus(n.core.ends[i], n.conns[i].arrived.value)];
    }
  }

  lemma ReceiveNothing(c: Conn)
    ensures |c.toInput| == 0 ==> ReceiveReply(c) == c
  {
  }

  lemma RingsThere(n: Node, r: Rings)
    requires NodeInv(n, r)
    ensures |n.conns| > 0 && |n.conns[0].desc| > 0
  {
    hide ConnInv;
    ConnFacts(n.conns[0], n.core.ends[0], n.core.acked, n.core.cw, r);
  }

  lemma MovedSelf(s: Sys, i: nat, c: nat)
    requires Inside(s, i, c)
    ensures Moved(s, s, i, c, PairOf(s, i, c))
  {
  }

  lemma MovedOn(s: Sys, s1: Sys, s2: Sys, i: nat, c: nat, p1: Pair, p2: Pair)
    requires Moved(s, s1, i, c, p1) && Moved(s1, s2, i, c, p2)
    ensures Moved(s, s2, i, c, p2)
  {
  }

  lemma MovedPair(s: Sys, s': Sys, i: nat, c: nat, p: Pair)
    requires Moved(s, s', i, c, p)
    ensures Inside(s', i, c) && PairOf(s', i, c) == p
  {
  }

  lemma {:induction false} OpsMove(cfg: Config, s: Sys, i: nat, c: nat, ops: seq<Op>) returns (s': Sys)
    requires SysInv(cfg, s) && i < |cfg.sources| && c < |cfg.rings|
    ensures Leads(cfg, s, s') && SysInv(cfg, s') && Inside(s, i, c) && Moved(s, s', i, c, RunOps(PairOf(s, i, c), ops))
    decreases |ops|
  {
    hide SysInv, Leads, Apply, ApplyOp, Moved, NodeInv, Sized;
    InsideInv(cfg, s, i, c);
    InvSized(cfg, s);
    if |ops| == 0 {
      s' := s;
      LeadsSelf(cfg, s);
      MovedSelf(s, i, c);
    } else {
      var step := StepOf(ops[0], i, c);
      LeadsStep(cfg, s, step);
      OpMoves(cfg, s, i, c, ops[0]);
      var s1 := Apply(cfg, s, step);
      MovedPair(s, s1, i, c, ApplyOp(PairOf(s, i, c), ops[0]));
      s' := OpsMove(cfg, s1, i, c, ops[1..]);
      LeadsOn(cfg, s, s1, s');
      MovedOn(s, s1, s', i, c, PairOf(s1, i, c), RunOps(PairOf(s1, i, c), ops[1..]));
    }
  }

  /** One round trip of the token of one connection, if it is not done. */
  lemma CycleAt(cfg: Config, s: Sys, i: nat, c: nat) returns (s': Sys)
    requires SysInv(cfg, s) && i < |cfg.sources| && c < |cfg.rings|
    ensures Leads(cfg, s, s') && SysInv(cfg, s') && Inside(s, i, c) && Inside(s', i, c)
    ensures Moved(s, s', i, c, PairOf(s', i, c)) && AskedRight(PairOf(s, i, c), PairOf(s', i, c)) && Turned(s, s', i, c)
  {
    hide SysInv, Leads, Moved, NodeInv, Sized, Cycled, AskedRight, ConnInv, RunOps;
    InsideInv(cfg, s, i, c);
    var p := PairOf(s, i, c);
    if p.c.snd.done {
      s' := s;
      InvSized(cfg, s);
      LeadsSelf(cfg, s);
      MovedSelf(s, i, c);
      DoneAsked(p, s.nodes[c].core.acked, s.nodes[c].core.cw, cfg.rings[c]);
    } else {
      var ops, p' := RoundTrip(p, s.nodes[c].core.acked, s.nodes[c].core.cw, cfg.rings[c]);
      s' := OpsMove(cfg, s, i, c, ops);
      MovedPair(s, s', i, c, p');
    }
  }

  lemma DoneAsked(p: Pair, acked: nat, cw: nat, r: Rings)
    requires PairInv(p, acked, cw, r) && p.c.snd.done
    ensures AskedRight(p, p)
  {
    hide ConnInv;
    FinalMeansFinalizing(p, acked, cw, r);
  }

  // ---- a round trip on every connection ------------------------------------------------------------

  ghost predicate Kept(s: Sys, s': Sys, i: nat, c: nat)
  {
    && Inside(s, i, c) && Inside(s', i, c)
    && s'.nodes[c].conns[i] == s.nodes[c].conns[i] && s'.nodes[c].core.ends[i] == s.nodes[c].core.ends[i]
  }

  /** The connection made a round trip, unless it was done. */
  ghost predicate Turned(s: Sys, s': Sys, i: nat, c: nat)
  {
    && Inside(s, i, c) && Inside(s', i, c)
    && if s.nodes[c].conns[i].snd.done then Kept(s, s', i, c) else Cycled(PairOf(s, i, c), PairOf(s', i, c))
  }

  /** Inputs change nothing but being asked to abort. */
  ghost predicate InputsSame(s: Sys, s': Sys)
  {
    && |s'.inputs| == |s.inputs|
    && forall i :: 0 <= i < |s.inputs| ==>
         s'.inputs[i] == s.inputs[i].(abort := s'.inputs[i].abort) && (s.inputs[i].abort ==> s'.inputs[i].abort)
  }

  /** Nobody asks for an abort and nobody was asked. */
  ghost predicate Unasked(s: Sys)
  {
    forall i: nat, c: nat :: Inside(s, i, c) ==> !PairOf(s, i, c).asked && !Asking(PairOf(s, i, c))
  }

  /** An input that is still sending hears that the compute node asks for an abort. */
  ghost predicate Heard(s: Sys, s': Sys, i: nat, c: nat)
  {
    && Inside(s, i, c) && Inside(s', i, c)
    && (!PairOf(s, i, c).c.snd.finalizing && PairOf(s, i, c).e.sendMsg.requestAbort ==> s'.inputs[i].abort)
  }

  /** An input hears of no abort where nobody asks for one. */
  ghost predicate Silent(s: Sys, s': Sys, i: nat, c: nat)
  {
    && Inside(s, i, c) && Inside(s', i, c)
    && (!Asking(PairOf(s, i, c)) ==> s'.inputs[i].abort == s.inputs[i].abort)
  }

  /** On compute node `c` the first `n` connections made a round trip; all else is the same. */
  ghost predicate NodeTurned(s: Sys, s': Sys, c: nat, n: nat)
  {
    && InputsSame(s, s') && |s'.nodes| == |s.nodes|
    && (forall d :: 0 <= d < |s.nodes| && d != c ==> s'.nodes[d] == s.nodes[d])
    && c < |s.nodes| && NodeSame(s.nodes[c], s'.nodes[c])
    && (forall i :: 0 <= i < n ==> Turned(s, s', i, c))
    && (forall i :: n <= i < |s.inputs| ==> Kept(s, s', i, c))
    && (forall i :: 0 <= i < n ==> Heard(s, s', i, c) && Silent(s, s', i, c))
    && (forall i :: n <= i < |s.inputs| ==> s'.inputs[i] == s.inputs[i])
    && (Unasked(s) ==> Unasked(s'))
  }

  lemma NodeTurnedStep(s: Sys, s1: Sys, s2: Sys, c: nat, n: nat)
    requires NodeTurned(s, s1, c, n) && Inside(s, n, c) && Inside(s1, n, c) && Inside(s2, n, c)
    requires Moved(s1, s2, n, c, PairOf(s2, n, c)) && AskedRight(PairOf(s1, n, c), PairOf(s2, n, c))
    requires Turned(s1, s2, n, c)
    ensures NodeTurned(s, s2, c, n + 1)
  {
    hide Cycled, Unasked, Turned, Asking;
    assert Kept(s, s1, n, c);
    TurnedLater(s, s1, s2, n, c);
    forall i | 0 <= i < n
      ensures Turned(s, s2, i, c) && Heard(s, s2, i, c) && Silent(s, s2, i, c)
    {
      assert Turned(s, s1, i, c) && Heard(s, s1, i, c) && Silent(s, s1, i, c);
      TurnedEarlier(s, s1, s2, i, c, n);
    }
    forall i | n + 1 <= i < |s.inputs|
      ensures Kept(s, s2, i, c)
    {
      assert Kept(s, s1, i, c);
    }
    if Unasked(s) {
      UnaskedMoved(s1, s2, n, c);
    }
  }

  lemma TurnedLater(s: Sys, s1: Sys, s2: Sys, i: nat, c: nat)
    requires Kept(s, s1, i, c) && Turned(s1, s2, i, c)
    ensures Turned(s, s2, i, c)
  {
    if !s.nodes[c].conns[i].snd.done {
      CycledIgnoresAsked(PairOf(s1, i, c), PairOf(s2, i, c), PairOf(s, i, c), PairOf(s2, i, c));
    }
  }

  lemma TurnedEarlier(s: Sys, s1: Sys, s2: Sys, i: nat, c: nat, n: nat)
    requires Turned(s, s1, i, c) && i != n && Inside(s2, i, c) && Inside(s2, n, c)
    requires Moved(s1, s2, n, c, PairOf(s2, n, c))
    ensures Turned(s, s2, i, c) && Kept(s1, s2, i, c)
  {
    if !s.nodes[c].conns[i].snd.done {
      CycledIgnoresAsked(PairOf(s, i, c), PairOf(s1, i, c), PairOf(s, i, c), PairOf(s2, i, c));
    }
  }

  lemma CycledIgnoresAsked(p: Pair, p': Pair, q: Pair, q': Pair)
    requires Cycled(p, p') && q == p.(asked := q.asked) && q' == p'.(asked := q'.asked)
    ensures Cycled(q, q')
  {
  }

  lemma UnaskedMoved(s: Sys, s': Sys, i: nat, c: nat)
    requires Unasked(s) && Inside(s, i, c) && Inside(s', i, c)
    requires Moved(s, s', i, c, PairOf(s', i, c)) && AskedRight(PairOf(s, i, c), PairOf(s', i, c))
    ensures Unasked(s')
  {
    forall j: nat, d: nat | Inside(s', j, d)
      ensures !PairOf(s', j, d).asked && !Asking(PairOf(s', j, d))
    {
      assert Inside(s, j, d);
      assert !PairOf(s, j, d).asked && !Asking(PairOf(s, j, d));
      if (j, d) != (i, c) {
        assert PairOf(s', j, d).c == PairOf(s, j, d).c && PairOf(s', j, d).e == PairOf(s, j, d).e;
      }
    }
  }

  lemma {:induction false} PassNode(cfg: Config, s: Sys, c: nat, n: nat) returns (s': Sys)
    requires SysInv(cfg, s) && n <= |cfg.sources| && c < |cfg.rings|
    ensures Leads(cfg, s, s') && SysInv(cfg, s') && NodeTurned(s, s', c, n)
    decreases n
  {
    hide SysInv, Leads, Moved, NodeInv, Sized, Cycled, AskedRight, ConnInv, NodeTurned, Turned;
    if n == 0 {
      s' := s;
      InvSized(cfg, s);
      LeadsSelf(cfg, s);
      NothingTurned(cfg, s, c);
    } else {
      var s1 := PassNode(cfg, s, c, n - 1);
      s' := CycleAt(cfg, s1, n - 1, c);
      LeadsOn(cfg, s, s1, s');
      InsideInv(cfg, s, n - 1, c);
      NodeTurnedStep(s, s1, s', c, n - 1);
    }
  }

  lemma NothingTurned(cfg: Config, s: Sys, c: nat)
    requires SysInv(cfg, s) && c < |cfg.rings|
    ensures NodeTurned(s, s, c, 0)
  {
    hide InputInv, Linked, ConnInv, NodeInv;
  }

  /** On the first `m` compute nodes every connection made a round trip. */
  ghost predicate AllTurned(s: Sys, s': Sys, m: nat)
  {
    && InputsSame(s, s') && |s'.nodes| == |s.nodes|
    && (forall c :: 0 <= c < |s.nodes| ==> NodeSame(s.nodes[c], s'.nodes[c]))
    && (forall i, c :: 0 <= i < |s.inputs| && 0 <= c < m ==> Turned(s, s', i, c))
    && (forall c :: m <= c < |s.nodes| ==> s'.nodes[c] == s.nodes[c])
    && (Unasked(s) ==> Unasked(s'))
  }

  lemma {:induction false} Pass(cfg: Config, s: Sys, m: nat) returns (s': Sys)
    requires SysInv(cfg, s) && m <= |cfg.rings|
    ensures Leads(cfg, s, s') && SysInv(cfg, s') && AllTurned(s, s', m)
    decreases m
  {
    hide SysInv, Leads, NodeInv, Sized, Cycled, ConnInv, AllTurned, NodeTurned;
    if m == 0 {
      s' := s;
      InvSized(cfg, s);
      LeadsSelf(cfg, s);
      AllTurnedNone(s);
    } else {
      var s1 := Pass(cfg, s, m - 1);
      s' := PassNode(cfg, s1, m - 1, |cfg.sources|);
      LeadsOn(cfg, s, s1, s');
      InsideSizes(cfg, s);
      InsideSizes(cfg, s1);
      InsideSizes(cfg, s');
      AllTurnedStep(s, s1, s', m - 1);
    }
  }

  lemma AllTurnedNone(s: Sys)
    ensures AllTurned(s, s, 0)
  {
  }

  lemma InsideSizes(cfg: Config, s: Sys)
    requires SysInv(cfg, s)
    ensures |s.inputs| == |cfg.sources| && |s.nodes| == |cfg.rings|
    ensures forall i, c :: 0 <= i < |s.inputs| && 0 <= c < |s.nodes| ==> Inside(s, i, c)
  {
    hide InputInv, Linked, ConnInv, NodeInv;
  }

  lemma AllTurnedStep(s: Sys, s1: Sys, s2: Sys, m: nat)
    requires AllTurned(s, s1, m) && m < |s.nodes| && NodeTurned(s1, s2, m, |s1.inputs|)
    requires forall i, c :: 0 <= i < |s.inputs| && 0 <= c < |s.nodes| ==>
               Inside(s, i, c) && Inside(s1, i, c) && Inside(s2, i, c)
    ensures AllTurned(s, s2, m + 1)
  {
    hide Cycled, Unasked;
    forall i, c | 0 <= i < |s.inputs| && 0 <= c < m + 1
      ensures Turned(s, s2, i, c)
    {
      if c == m {
        assert Turned(s1, s2, i, c);
        assert Kept(s, s1, i, c);
        TurnedLater(s, s1, s2, i, c);
      } else {
        assert Turned(s, s1, i, c);
        TurnedElsewhere(s, s1, s2, i, c);
      }
    }
  }

  lemma TurnedElsewhere(s: Sys, s1: Sys, s2: Sys, i: nat, c: nat)
    requires Turned(s, s1, i, c) && Inside(s2, i, c) && s2.nodes[c] == s1.nodes[c]
    ensures Turned(s, s2, i, c)
  {
    if !s.nodes[c].conns[i].snd.done {
      CycledIgnoresAsked(PairOf(s, i, c), PairOf(s1, i, c), PairOf(s, i, c), PairOf(s2, i, c));
    }
  }

  // ---- completing work items -----------------------------------------------------------------------

  /** Workers completed items of compute node `n`; nothing else happened. */
  ghost predicate Worked(n: Node, n': Node)
  {
    && n'.conns == n.conns && n'.core.cw == n.core.cw && n'.core.disconnected == n.core.disconnected
    && |n'.core.ends| == |n.core.ends|
    && forall j :: 0 <= j < |n.core.ends| ==> n'.core.ends[j] == n.core.ends[j].(cnAck := n'.core.ends[j].cnAck)
  }

  lemma ItemWorked(cfg: Config, s: Sys, c: nat, p: nat)
    requires SysInv(cfg, s) && c < |cfg.rings| && p in s.nodes[c].core.outstanding
    ensures var s' := Apply(cfg, s, ItemDone(c, p));
            && s'.inputs == s.inputs && |s'.nodes| == |s.nodes|
            && (forall d :: 0 <= d < |s.nodes| && d != c ==> s'.nodes[d] == s.nodes[d])
            && Worked(s.nodes[c], s'.nodes[c])
            && s'.nodes[c].core.outstanding == s.nodes[c].core.outstanding - {p}
  {
    hide InputInv, Linked, ConnInv;
    var n := s.nodes[c];
    assert NodeInv(n, cfg.rings[c]);
    forall j | 0 <= j < |n.conns|
      ensures |n.conns[j].desc| > 0
    {
      ConnFacts(n.conns[j], n.core.ends[j], n.core.acked, n.core.cw, cfg.rings[c]);
    }
  }

  lemma {:induction false} WorkNode(cfg: Config, s: Sys, c: nat) returns (s': Sys)
    requires SysInv(cfg, s) && c < |cfg.rings|
    ensures Leads(cfg, s, s') && SysInv(cfg, s')
    ensures s'.inputs == s.inputs && |s'.nodes| == |s.nodes| && c < |s.nodes|
    ensures forall d :: 0 <= d < |s.nodes| && d != c ==> s'.nodes[d] == s.nodes[d]
    ensures Worked(s.nodes[c], s'.nodes[c]) && s'.nodes[c].core.acked == s'.nodes[c].core.cw
    decreases |s.nodes[c].core.outstanding|
  {
    hide SysInv, Leads, NodeInv, Sized, ConnInv, Apply;
    InsideSizes(cfg, s);
    var left := s.nodes[c].core.outstanding;
    if left == {} {
      s' := s;
      InvSized(cfg, s);
      LeadsSelf(cfg, s);
      NoWorkLeft(cfg, s, c);
    } else {
      var p :| p in left;
      InvSized(cfg, s);
      LeadsStep(cfg, s, ItemDone(c, p));
      ItemWorked(cfg, s, c, p);
      var s1 := Apply(cfg, s, ItemDone(c, p));
      s' := WorkNode(cfg, s1, c);
      LeadsOn(cfg, s, s1, s');
    }
  }

  lemma NoWorkLeft(cfg: Config, s: Sys, c: nat)
    requires SysInv(cfg, s) && c < |cfg.rings| && s.nodes[c].core.outstanding == {}
    ensures s.nodes[c].core.acked == s.nodes[c].core.cw
  {
    hide InputInv, Linked, ConnInv;
    var core := s.nodes[c].core;
    assert NodeInv(s.nodes[c], cfg.rings[c]);
    assert core.acked !in core.outstanding;
  }

  /** All items of the first `m` compute nodes are completed. */
  ghost predicate AllWorked(s: Sys, s': Sys, m: nat)
  {
    && s'.inputs == s.inputs && |s'.nodes| == |s.nodes|
    && (forall c :: 0 <= c < |s.nodes| ==> Worked(s.nodes[c], s'.nodes[c]))
    && (forall c :: 0 <= c < m && c < |s'.nodes| ==> s'.nodes[c].core.acked == s'.nodes[c].core.cw)
  }

  lemma {:induction false} WorkAll(cfg: Config, s: Sys, m: nat) returns (s': Sys)
    requires SysInv(cfg, s) && m <= |cfg.rings|
    ensures Leads(cfg, s, s') && SysInv(cfg, s') && AllWorked(s, s', m)
    decreases m
  {
    hide SysInv, Leads, NodeInv, Sized, ConnInv;
    if m == 0 {
      s' := s;
      InvSized(cfg, s);
      LeadsSelf(cfg, s);
    } else {
      var s1 := WorkAll(cfg, s, m - 1);
      s' := WorkNode(cfg, s1, m - 1);
      LeadsOn(cfg, s, s1, s');
    }
  }

  // ---- seeing write completions ------------------------------------------------------------------

  /** Every write of the connection was seen to complete. */
  ghost predicate Polled(c: Conn, c': Conn)
  {
    c' == c.(polled := |c.sent|, snd := c.snd.(pending := 0))
  }

  /** The input counts completions; its course is the same. */
  ghost predicate SameCourse(a: Input, b: Input)
  {
    b.timeslice == a.timeslice && b.abort == a.abort && b.finalizing == a.finalizing && b.written == a.written
  }

  /** Only input `i` and the polled count of connection (i, c) changed. */
  ghost predicate PolledOne(s: Sys, s': Sys, i: nat, c: nat, conn: Conn)
  {
    && Inside(s, i, c) && |s'.nodes| == |s.nodes| && |s'.inputs| == |s.inputs|
    && (forall d :: 0 <= d < |s.nodes| && d != c ==> s'.nodes[d] == s.nodes[d])
    && s'.nodes[c] == WithConn(s.nodes[c], i, conn)
    && (forall j :: 0 <= j < |s.inputs| && j != i ==> s'.inputs[j] == s.inputs[j])
    && SameCourse(s.inputs[i], s'.inputs[i])
  }

  lemma WritePolls(cfg: Config, s: Sys, i: nat, c: nat)
    requires SysInv(cfg, s) && Inside(s, i, c)
    requires var conn := s.nodes[c].conns[i]; conn.landedDesc == |conn.sent| > conn.polled
    ensures var s' := Apply(cfg, s, WriteDone(i, c)); PolledOne(s, s', i, c, PollWrite(s.nodes[c].conns[i]))
    ensures s.nodes[c].conns[i].snd.pending == |s.nodes[c].conns[i].sent| - s.nodes[c].conns[i].polled
  {
    hide SysInv, ConnInv, NodeInv, InputInv, Linked, WriteCompleted;
    InsideSizes(cfg, s);
    PolledBound(cfg, s, i, c);
    InvSized(cfg, s);
    InvInput(cfg, s, i);
    WriteCourse(s.inputs[i], cfg.sources[i], cfg.sl, s.nodes[c].conns[i].sent[s.nodes[c].conns[i].polled].tsNum);
  }

  lemma InvInput(cfg: Config, s: Sys, i: nat)
    requires SysInv(cfg, s) && i < |s.inputs|
    ensures |s.inputs| == |cfg.sources| && InputInv(s.inputs[i], cfg.sources[i], cfg.sl)
    ensures cfg.sl.size > 0 && cfg.sources[i].startDesc <= s.inputs[i].ackedDesc
  {
    hide NodeInv, Linked;
  }

  lemma WriteCourse(inp: Input, src: Source, sl: Slicing, ts: nat)
    requires sl.size > 0 && inp.ackedDesc >= src.startDesc
    ensures SameCourse(inp, WriteCompleted(inp, src, sl, ts))
  {
  }

  lemma {:induction false} PollAt(cfg: Config, s: Sys, i: nat, c: nat) returns (s': Sys, conn: Conn)
    requires SysInv(cfg, s) && Inside(s, i, c) && s.nodes[c].conns[i].landedDesc == |s.nodes[c].conns[i].sent|
    ensures Leads(cfg, s, s') && SysInv(cfg, s') && PolledOne(s, s', i, c, conn) && Polled(s.nodes[c].conns[i], conn)
    decreases |s.nodes[c].conns[i].sent| - s.nodes[c].conns[i].polled
  {
    hide SysInv, Leads, NodeInv, Sized, ConnInv, Apply, PolledOne;
    conn := s.nodes[c].conns[i];
    PolledBound(cfg, s, i, c);
    if conn.polled == |conn.sent| {
      s' := s;
      InvSized(cfg, s);
      LeadsSelf(cfg, s);
      PolledNone(s, i, c);
    } else {
      InvSized(cfg, s);
      LeadsStep(cfg, s, WriteDone(i, c));
      WritePolls(cfg, s, i, c);
      var s1 := Apply(cfg, s, WriteDone(i, c));
      InsideSizes(cfg, s);
      PolledInside(s, s1, i, c, PollWrite(conn));
      s', conn := PollAt(cfg, s1, i, c);
      LeadsOn(cfg, s, s1, s');
      PolledTwice(s, s1, s', i, c, PollWrite(s.nodes[c].conns[i]), conn);
    }
  }

  lemma PolledBound(cfg: Config, s: Sys, i: nat, c: nat)
    requires SysInv(cfg, s) && Inside(s, i, c)
    ensures var conn := s.nodes[c].conns[i]; conn.polled <= |conn.sent| && conn.snd.pending == |conn.sent| - conn.polled
  {
    InsideSizes(cfg, s);
    InsideInv(cfg, s, i, c);
    hide Linked, InputInv, NodeInv, InFlight, Memory, Pointers, Messages, Told, Token, Chain, SysInv;
  }

  lemma PolledNone(s: Sys, i: nat, c: nat)
    requires Inside(s, i, c)
    ensures PolledOne(s, s, i, c, s.nodes[c].conns[i])
  {
    var n := s.nodes[c];
    assert n.conns[i := n.conns[i]] == n.conns;
  }

  lemma PolledInside(s: Sys, s': Sys, i: nat, c: nat, conn: Conn)
    requires PolledOne(s, s', i, c, conn)
    ensures Inside(s', i, c) && s'.nodes[c].conns[i] == conn
  {
  }

  lemma PolledTwice(s: Sys, s1: Sys, s2: Sys, i: nat, c: nat, c1: Conn, c2: Conn)
    requires PolledOne(s, s1, i, c, c1) && PolledOne(s1, s2, i, c, c2)
    ensures PolledOne(s, s2, i, c, c2)
  {
    var n := s.nodes[c];
    assert n.conns[i := c1][i := c2] == n.conns[i := c2];
  }

  ghost predicate HasLanded(s: Sys, i: nat, c: nat)
  {
    Inside(s, i, c) && s.nodes[c].conns[i].landedDesc == |s.nodes[c].conns[i].sent|
  }

  /** All writes of input `i` to the first `m` compute nodes were seen to complete. */
  ghost predicate PolledInput(s: Sys, s': Sys, i: nat, m: nat)
  {
    && |s'.nodes| == |s.nodes| && |s'.inputs| == |s.inputs| && i < |s.inputs|
    && (forall j :: 0 <= j < |s.inputs| && j != i ==> s'.inputs[j] == s.inputs[j])
    && SameCourse(s.inputs[i], s'.inputs[i])
    && (forall c :: 0 <= c < |s.nodes| ==> NodePolled(s.nodes[c], s'.nodes[c], i, c < m))
  }

  ghost predicate NodePolled(n: Node, n': Node, i: nat, polled: bool)
  {
    && n'.core == n.core && |n'.conns| == |n.conns| && i < |n.conns|
    && (forall j :: 0 <= j < |n.conns| && j != i ==> n'.conns[j] == n.conns[j])
    && if polled then Polled(n.conns[i], n'.conns[i]) else n'.conns[i] == n.conns[i]
  }

  lemma {:induction false} PollInput(cfg: Config, s: Sys, i: nat, m: nat) returns (s': Sys)
    requires SysInv(cfg, s) && i < |cfg.sources| && m <= |cfg.rings|
    requires forall c :: 0 <= c < m ==> HasLanded(s, i, c)
    ensures Leads(cfg, s, s') && SysInv(cfg, s') && PolledInput(s, s', i, m)
    decreases m
  {
    hide SysInv, Leads, NodeInv, Sized, ConnInv, PolledOne;
    InsideSizes(cfg, s);
    if m == 0 {
      s' := s;
      InvSized(cfg, s);
      LeadsSelf(cfg, s);
      forall c | 0 <= c < |s.nodes|
        ensures NodePolled(s.nodes[c], s'.nodes[c], i, false)
      {
        assert Inside(s, i, c);
      }
    } else {
      var s1 := PollInput(cfg, s, i, m - 1);
      assert HasLanded(s, i, m - 1);
      assert NodePolled(s.nodes[m - 1], s1.nodes[m - 1], i, false);
      var conn;
      s', conn := PollAt(cfg, s1, i, m - 1);
      LeadsOn(cfg, s, s1, s');
      PolledInputStep(s, s1, s', i, m - 1, conn);
    }
  }

  lemma PolledInputStep(s: Sys, s1: Sys, s2: Sys, i: nat, m: nat, conn: Conn)
    requires PolledInput(s, s1, i, m) && m < |s.nodes| && Inside(s1, i, m)
    requires PolledOne(s1, s2, i, m, conn) && Polled(s1.nodes[m].conns[i], conn)
    ensures PolledInput(s, s2, i, m + 1)
  {
    forall c | 0 <= c < |s.nodes|
      ensures NodePolled(s.nodes[c], s2.nodes[c], i, c < m + 1)
    {
      assert NodePolled(s.nodes[c], s1.nodes[c], i, c < m);
    }
  }

  /** All writes of the first `n` inputs were seen to complete. */
  ghost predicate AllPolled(s: Sys, s': Sys, n: nat)
  {
    && |s'.nodes| == |s.nodes| && |s'.inputs| == |s.inputs|
    && (forall i :: 0 <= i < |s.inputs| ==> SameCourse(s.inputs[i], s'.inputs[i]))
    && (forall c :: 0 <= c < |s.nodes| ==> NodeAllPolled(s.nodes[c], s'.nodes[c], n))
  }

  ghost predicate NodeAllPolled(a: Node, b: Node, n: nat)
  {
    && b.core == a.core && |b.conns| == |a.conns|
    && (forall i :: 0 <= i < |a.conns| ==> if i < n then Polled(a.conns[i], b.conns[i]) else b.conns[i] == a.conns[i])
  }

  lemma {:induction false} PollInputs(cfg: Config, s: Sys, n: nat) returns (s': Sys)
    requires SysInv(cfg, s) && n <= |cfg.sources|
    requires forall i, c :: 0 <= i < n && 0 <= c < |cfg.rings| ==> HasLanded(s, i, c)
    ensures Leads(cfg, s, s') && SysInv(cfg, s') && AllPolled(s, s', n)
    decreases n
  {
    hide SysInv, Leads, NodeInv, Sized, ConnInv, PolledInput;
    InsideSizes(cfg, s);
    if n == 0 {
      s' := s;
      InvSized(cfg, s);
      LeadsSelf(cfg, s);
    } else {
      var s1 := PollInputs(cfg, s, n - 1);
      InsideSizes(cfg, s1);
      var k := n - 1;
      forall c | 0 <= c < |cfg.rings|
        ensures HasLanded(s1, k, c)
      {
        assert HasLanded(s, k, c) && NodeAllPolled(s.nodes[c], s1.nodes[c], k);
        assert Inside(s1, k, c);
      }
      s' := PollInput(cfg, s1, k, |cfg.rings|);
      LeadsOn(cfg, s, s1, s');
      AllPolledStep(s, s1, s', n - 1);
    }
  }

  lemma AllPolledStep(s: Sys, s1: Sys, s2: Sys, n: nat)
    requires AllPolled(s, s1, n) && n < |s.inputs| && PolledInput(s1, s2, n, |s1.nodes|)
    ensures AllPolled(s, s2, n + 1)
  {
    forall c | 0 <= c < |s.nodes|
      ensures NodeAllPolled(s.nodes[c], s2.nodes[c], n + 1)
    {
      assert NodeAllPolled(s.nodes[c], s1.nodes[c], n) && NodePolled(s1.nodes[c], s2.nodes[c], n, true);
    }
  }

  /** Once all its writes were seen to complete, an input waits for none. */
  lemma NothingPending(cfg: Config, s: Sys, i: nat)
    requires SysInv(cfg, s) && i < |cfg.sources|
    requires forall c :: 0 <= c < |cfg.rings| ==>
               Inside(s, i, c) && s.nodes[c].conns[i].polled == |s.nodes[c].conns[i].sent|
    ensures s.inputs[i].ackedDesc == First(cfg.sources[i], cfg.sl, s.inputs[i].timeslice)
  {
    hide NodeInv, ConnInv, InputInv, Linked, First;
    InsideSizes(cfg, s);
    InvInput(cfg, s, i);
    var inp, src, n := s.inputs[i], cfg.sources[i], |s.nodes|;
    AckedFirst(inp, src, cfg.sl);
    var a := AckedTs(inp, src, cfg.sl);
    if a < inp.timeslice {
      assert Linked(inp, s.nodes[a % n].conns[i], src, cfg.sl, a % n, n);
      AckedPolled(inp, s.nodes[a % n].conns[i], src, cfg.sl, n);
    }
  }

  lemma AckedFirst(inp: Input, src: Source, sl: Slicing)
    requires InputInv(inp, src, sl)
    ensures sl.size > 0 && inp.ackedDesc >= src.startDesc
    ensures inp.ackedDesc == First(src, sl, AckedTs(inp, src, sl)) && AckedTs(inp, src, sl) <= inp.timeslice
    ensures AckedTs(inp, src, sl) !in inp.done
  {
    hide First, TsOf;
  }

  /** The first timeslice not counted as complete was not seen to complete either. */
  lemma AckedPolled(inp: Input, conn: Conn, src: Source, sl: Slicing, n: nat)
    requires InputInv(inp, src, sl) && n > 0 && sl.size > 0 && inp.ackedDesc >= src.startDesc
    requires var a := AckedTs(inp, src, sl); a < inp.timeslice && Linked(inp, conn, src, sl, a % n, n)
    ensures conn.polled < |conn.sent|
  {
    hide First, AckedTs, InputInv, TsAt, Carries;
    AckedFirst(inp, src, sl);
    var a := AckedTs(inp, src, sl);
    var c, p := a % n, a / n;
    TsAtOf(a, n);
    assert p < |conn.sent|;
    assert !IsCompleted(a, inp.done, a);
  }
}
