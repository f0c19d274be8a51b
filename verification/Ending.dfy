/** Exactly when all connections can still end, for every state of every run. */
module Ending {
  import opened RingMath
  import opened Wire
  import opened InputChannelConnection
  import opened Connection
  import opened ComputeNode
  import opened InputChannelSender
  import opened System
  import opened SystemProofs
  import opened Cycle
  import opened Continuation
  import opened FlagInvariants
  import opened Room
  import opened Progress
  import opened Abort
  import opened Afford

  // ---- on the way to the end ---------------------------------------------------------------------------

  /** Input `i` has sent everything.  Every input that has stopped can still report as much, no
      compute node has stopped counting too early, and every other input can afford the rest. */
  ghost predicate Ready(cfg: Config, s: Sys, i: nat)
  {
    && SysInv(cfg, s) && Flags(cfg, s) && AskInv(s)
    && i < |s.inputs| && s.inputs[i].timeslice == cfg.maxTimeslices && Stopped(s.inputs[i])
    && (forall k: nat, c: nat :: Inside(s, k, c) && Inside(s, i, c) && Stopped(s.inputs[k]) ==>
          Reach(s, k, c) >= |s.nodes[c].conns[i].sent|)
    && (forall c: nat :: Inside(s, i, c) ==>
          s.nodes[c].core.disconnected == {} || s.nodes[c].core.cw >= |s.nodes[c].conns[i].sent|)
    && (forall j: nat :: j < |s.inputs| && !Stopped(s.inputs[j]) ==> Affords(cfg, s, j))
  }

  /** Nobody heard of an abort or finished, and nothing was lost that is still needed. */
  ghost predicate Onward(s: Sys, s': Sys)
  {
    && |s'.inputs| == |s.inputs| && |s'.nodes| == |s.nodes|
    && (forall k :: 0 <= k < |s.inputs| ==> InputOnward(s.inputs[k], s'.inputs[k]))
    && (forall k: nat, c: nat :: Inside(s, k, c) ==> Inside(s', k, c) && PairOnward(s, s', k, c))
    && (forall c :: 0 <= c < |s.nodes| ==> CoreOnward(s.nodes[c], s'.nodes[c]))
  }

  ghost predicate InputOnward(a: Input, b: Input)
  {
    b.timeslice >= a.timeslice && b.abort == a.abort && b.finalizing == a.finalizing
  }

  ghost predicate CoreOnward(a: Node, b: Node)
  {
    b.core.disconnected == a.core.disconnected && (a.core.disconnected != {} ==> b.core.cw == a.core.cw)
  }

  ghost predicate PairOnward(s: Sys, s': Sys, k: nat, c: nat)
    requires Inside(s, k, c) && Inside(s', k, c)
  {
    && (Stopped(s.inputs[k]) ==>
          s'.nodes[c].conns[k].sent == s.nodes[c].conns[k].sent && Reach(s', k, c) >= Reach(s, k, c))
    && (Asks(PairOf(s', k, c)) <==> Asks(PairOf(s, k, c)))
    && (!Stopped(s.inputs[k]) && Asks(PairOf(s, k, c)) ==>
        LastAck(s'.nodes[c].conns[k]) == LastAck(s.nodes[c].conns[k]))
  }

  /** Every input is where it was. */
  ghost predicate SameTimes(s: Sys, s': Sys)
  {
    |s'.inputs| == |s.inputs| && forall k :: 0 <= k < |s.inputs| ==> s'.inputs[k].timeslice == s.inputs[k].timeslice
  }

  lemma LeadsAsk(cfg: Config, s: Sys, s': Sys)
    requires SysInv(cfg, s) && AskInv(s) && Leads(cfg, s, s')
    ensures AskInv(s')
  {
    hide SysInv, AskInv, Run, Sized;
    var steps := LeadsSteps(cfg, s, s');
    RunAsks(cfg, s, steps);
  }

  lemma ReadyKeeps(cfg: Config, s: Sys, s': Sys, i: nat)
    requires Ready(cfg, s, i) && Onward(s, s') && Leads(cfg, s, s')
    ensures Ready(cfg, s', i)
  {
    hide SysInv, Flags, AskInv, Leads, Sized, Affords, PairOnward, CoreOnward;
    LeadsKeeps(cfg, s, s');
    LeadsAsk(cfg, s, s');
    InsideSizes(cfg, s);
    InsideSizes(cfg, s');
    InvSized(cfg, s);
    InvSized(cfg, s');
    TopStays(cfg, s, s', i);
    forall k: nat, c: nat | Inside(s', k, c) && Inside(s', i, c) && Stopped(s'.inputs[k])
      ensures Reach(s', k, c) >= |s'.nodes[c].conns[i].sent|
    {
      assert Inside(s, k, c) && Inside(s, i, c);
      ReachStays(s, s', k, c);
      ReachStays(s, s', i, c);
    }
    forall c: nat | Inside(s', i, c)
      ensures s'.nodes[c].core.disconnected == {} || s'.nodes[c].core.cw >= |s'.nodes[c].conns[i].sent|
    {
      assert Inside(s, i, c);
      ReachStays(s, s', i, c);
      CountStays(s, s', c);
    }
    forall j: nat | j < |s'.inputs| && !Stopped(s'.inputs[j])
      ensures Affords(cfg, s', j)
    {
      AffordsStays(cfg, s, s', j);
    }
  }

  lemma TopStays(cfg: Config, s: Sys, s': Sys, i: nat)
    requires Onward(s, s') && Flags(cfg, s') && i < |s.inputs| && s.inputs[i].timeslice == cfg.maxTimeslices
    ensures s'.inputs[i].timeslice == cfg.maxTimeslices
  {
  }

  lemma ReachStays(s: Sys, s': Sys, k: nat, c: nat)
    requires Onward(s, s') && Inside(s, k, c) && Stopped(s.inputs[k])
    ensures Inside(s', k, c) && Reach(s', k, c) >= Reach(s, k, c)
    ensures s'.nodes[c].conns[k].sent == s.nodes[c].conns[k].sent
  {
    assert PairOnward(s, s', k, c);
  }

  lemma CountStays(s: Sys, s': Sys, c: nat)
    requires Onward(s, s') && c < |s.nodes|
    ensures CoreOnward(s.nodes[c], s'.nodes[c])
  {
  }

  lemma AffordsStays(cfg: Config, s: Sys, s': Sys, j: nat)
    requires Onward(s, s') && cfg.Valid() && Sized(cfg, s) && Sized(cfg, s') && j < |s.inputs| && !Stopped(s.inputs[j])
    requires Affords(cfg, s, j)
    ensures Affords(cfg, s', j)
  {
    hide RoomFor, Granted, LastAck;
    forall t: nat | j < |s'.inputs| && s'.inputs[j].timeslice <= t < cfg.maxTimeslices
      ensures Affordable(cfg, s', j, t)
    {
      assert InputOnward(s.inputs[j], s'.inputs[j]);
      assert Affordable(cfg, s, j, t);
      var c := TargetNode(cfg, t);
      assert Inside(s, j, c) && PairOnward(s, s', j, c);
    }
  }

  // ---- single steps onward -------------------------------------------------------------------------------

  /** A round trip at a compute node that does not ask for an abort. */
  lemma PassOnward(cfg: Config, s: Sys, s': Sys, c: nat, i: nat)
    requires SysInv(cfg, s) && SysInv(cfg, s') && AskInv(s) && NodeTurned(s, s', c, |s.inputs|)
    requires Inside(s, i, c) && !Asks(PairOf(s, i, c))
    ensures Onward(s, s') && SameTimes(s, s')
  {
    hide SysInv, NodeInv, ConnInv, Turned, Reach, LastAck, Asks, Honest;
    InsideSizes(cfg, s);
    InsideSizes(cfg, s');
    forall k: nat | k < |s.inputs|
      ensures Inside(s, k, c) && Inside(s', k, c) && InputOnward(s.inputs[k], s'.inputs[k]) && PairOnward(s, s', k, c)
    {
      assert Inside(s, k, c) && Silent(s, s', k, c) && Turned(s, s', k, c);
      assert Honest(PairOf(s, k, c)) && !Asks(PairOf(s, k, c));
      NotAsking(PairOf(s, k, c));
      TurnOnward(cfg, s, s', k, c);
    }
    forall k: nat, d: nat | Inside(s, k, d)
      ensures Inside(s', k, d) && PairOnward(s, s', k, d)
    {
      if d != c {
        ElsewhereOnward(s, s', k, d);
      }
    }
  }

  lemma NotAsking(p: Pair)
    requires Honest(p) && !Asks(p)
    ensures !Asking(p)
  {
  }

  lemma ElsewhereOnward(s: Sys, s': Sys, k: nat, d: nat)
    requires Inside(s, k, d) && Inside(s', k, d) && s'.nodes[d] == s.nodes[d]
    ensures PairOnward(s, s', k, d)
  {
  }

  lemma TurnOnward(cfg: Config, s: Sys, s': Sys, k: nat, c: nat)
    requires SysInv(cfg, s) && k < |cfg.sources| && c < |cfg.rings| && Turned(s, s', k, c) && !Asks(PairOf(s, k, c))
    ensures PairOnward(s, s', k, c)
  {
    hide SysInv, NodeInv, ConnInv, LastAck;
    InsideInv(cfg, s, k, c);
    var core := s.nodes[c].core;
    PairFacts(PairOf(s, k, c), core.acked, core.cw, cfg.rings[c]);
  }

  lemma WorkOnward(s: Sys, s': Sys, c: nat)
    requires s'.inputs == s.inputs && |s'.nodes| == |s.nodes| && c < |s.nodes| && Worked(s.nodes[c], s'.nodes[c])
    requires forall d :: 0 <= d < |s.nodes| && d != c ==> s'.nodes[d] == s.nodes[d]
    ensures Onward(s, s') && SameTimes(s, s')
  {
    hide LastAck;
  }

  /** Everything that input `j` sent to compute node `d` landed; nothing else happened. */
  ghost predicate LandedAt(s: Sys, s': Sys, j: nat, d: nat)
  {
    && Inside(s, j, d) && Inside(s', j, d) && Moved(s, s', j, d, PairOf(s', j, d))
    && Landed(PairOf(s, j, d), PairOf(s', j, d)) && Same(PairOf(s, j, d), PairOf(s', j, d))
  }

  lemma LandAt(cfg: Config, s: Sys, j: nat, d: nat) returns (s': Sys)
    requires SysInv(cfg, s) && j < |cfg.sources| && d < |cfg.rings|
    ensures Leads(cfg, s, s') && SysInv(cfg, s') && LandedAt(s, s', j, d)
  {
    hide SysInv, Leads, Moved, NodeInv, Sized, ConnInv, RunOps, Landed, Same;
    InsideInv(cfg, s, j, d);
    var ops, p' := LandAll(PairOf(s, j, d), s.nodes[d].core.acked, s.nodes[d].core.cw, cfg.rings[d]);
    s' := OpsMove(cfg, s, j, d, ops);
    MovedPair(s, s', j, d, p');
  }

  lemma LandOnward(s: Sys, s': Sys, j: nat, d: nat)
    requires LandedAt(s, s', j, d)
    ensures Onward(s, s') && SameTimes(s, s')
  {
    hide StatusCount;
    MovedOnward(s, s', j, d);
  }

  /** One connection moved; the input heard of no abort. */
  lemma MovedOnward(s: Sys, s': Sys, j: nat, d: nat)
    requires Inside(s, j, d) && Inside(s', j, d) && Moved(s, s', j, d, PairOf(s', j, d)) && PairOnward(s, s', j, d)
    requires s'.inputs[j].abort == s.inputs[j].abort
    ensures Onward(s, s') && SameTimes(s, s')
  {
    forall k: nat, e: nat | Inside(s, k, e)
      ensures Inside(s', k, e) && PairOnward(s, s', k, e)
    {
      if (k, e) != (j, d) {
        assert s'.nodes[e].conns[k] == s.nodes[e].conns[k] && s'.nodes[e].core.ends[k] == s.nodes[e].core.ends[k];
      }
    }
    forall e | 0 <= e < |s.nodes|
      ensures CoreOnward(s.nodes[e], s'.nodes[e])
    {
      assert e == d || s'.nodes[e] == s.nodes[e];
    }
  }

  lemma PollOnward(s: Sys, s': Sys, j: nat, m: nat)
    requires PolledInput(s, s', j, m)
    ensures Onward(s, s') && SameTimes(s, s')
  {
  }

  lemma SourceOnward(s: Sys, s': Sys, j: nat)
    requires SourceOnly(s, s', j)
    ensures Onward(s, s') && SameTimes(s, s')
  {
    hide LastAck;
  }

  lemma SendOnward(cfg: Config, s: Sys, j: nat)
    requires cfg.Valid() && Sized(cfg, s) && j < |s.inputs|
    ensures Onward(s, Apply(cfg, s, SendNext(j)))
  {
    hide Send, Gather, Available;
    var s' := Apply(cfg, s, SendNext(j));
    var inp := s.inputs[j];
    var c := TargetNode(cfg, inp.timeslice);
    SendUnheard(s.nodes[c].conns[j], cfg.rings[c], cfg.maxPending,
                Gather(cfg.sources[j], cfg.sl, inp.written, inp.timeslice), inp.timeslice, cfg.sl.Length());
    forall k: nat, e: nat | Inside(s, k, e)
      ensures Inside(s', k, e) && PairOnward(s, s', k, e)
    {
      if (k, e) != (j, c) {
        assert s'.nodes[e].conns[k] == s.nodes[e].conns[k] && s'.nodes[e].core.ends[k] == s.nodes[e].core.ends[k];
      }
    }
  }

  // ---- seeing all writes of one input ------------------------------------------------------------------

  /** Input `j` knows and was told what it knew and was told. */
  ghost predicate SameViews(s: Sys, s': Sys, j: nat)
  {
    && |s'.nodes| == |s.nodes|
    && forall c: nat :: Inside(s, j, c) ==>
         Inside(s', j, c) && SameView(s.nodes[c].conns[j], s'.nodes[c].conns[j])
  }

  ghost predicate SameView(a: Conn, b: Conn)
  {
    b.sent == a.sent && b.snd == a.snd.(pending := b.snd.pending)
  }

  /** Everything that input `j` sent to the first `m` compute nodes has landed. */
  lemma {:induction false} LandInput(cfg: Config, s: Sys, j: nat, m: nat) returns (s': Sys)
    requires SysInv(cfg, s) && j < |cfg.sources| && m <= |cfg.rings|
    ensures Leads(cfg, s, s') && SysInv(cfg, s') && Onward(s, s') && SameTimes(s, s') && SameViews(s, s', j)
    ensures forall c :: 0 <= c < m ==> HasLanded(s', j, c)
    decreases m
  {
    hide SysInv, Leads, NodeInv, Sized, ConnInv, Onward, LandedAt;
    InvSized(cfg, s);
    InsideSizes(cfg, s);
    if m == 0 {
      s' := s;
      LeadsSelf(cfg, s);
      OnwardSelf(s);
    } else {
      var s1 := LandInput(cfg, s, j, m - 1);
      s' := LandAt(cfg, s1, j, m - 1);
      LandOnward(s1, s', j, m - 1);
      LandViews(s1, s', j, m - 1);
      OnwardOn(s, s1, s');
      LeadsOn(cfg, s, s1, s');
      InsideSizes(cfg, s1);
      InsideSizes(cfg, s');
      forall c | 0 <= c < m
        ensures HasLanded(s', j, c)
      {
        assert c < m - 1 ==> HasLanded(s1, j, c);
      }
    }
  }

  lemma LandViews(s: Sys, s': Sys, j: nat, d: nat)
    requires LandedAt(s, s', j, d)
    ensures SameViews(s, s', j) && HasLanded(s', j, d)
    ensures forall c :: 0 <= c < |s.nodes| && c != d ==> s'.nodes[c] == s.nodes[c]
  {
    hide StatusCount;
  }

  lemma OnwardSelf(s: Sys)
    ensures Onward(s, s)
  {
  }

  lemma OnwardOn(s: Sys, s1: Sys, s2: Sys)
    requires Onward(s, s1) && Onward(s1, s2)
    ensures Onward(s, s2)
  {
    forall k: nat, c: nat | Inside(s, k, c)
      ensures Inside(s2, k, c) && PairOnward(s, s2, k, c)
    {
      assert Inside(s1, k, c) && PairOnward(s, s1, k, c);
      assert Inside(s2, k, c) && PairOnward(s1, s2, k, c);
      assert InputOnward(s.inputs[k], s1.inputs[k]);
    }
    forall c | 0 <= c < |s.nodes|
      ensures CoreOnward(s.nodes[c], s2.nodes[c])
    {
      assert CoreOnward(s.nodes[c], s1.nodes[c]) && CoreOnward(s1.nodes[c], s2.nodes[c]);
    }
    forall k | 0 <= k < |s.inputs|
      ensures InputOnward(s.inputs[k], s2.inputs[k])
    {
      assert InputOnward(s.inputs[k], s1.inputs[k]) && InputOnward(s1.inputs[k], s2.inputs[k]);
    }
  }

  /** Input `j` sees all its writes complete. */
  lemma SeeWrites(cfg: Config, s: Sys, j: nat) returns (s': Sys)
    requires SysInv(cfg, s) && j < |cfg.sources|
    ensures Leads(cfg, s, s') && SysInv(cfg, s') && Onward(s, s') && SameTimes(s, s') && SameViews(s, s', j)
    ensures forall c :: 0 <= c < |cfg.rings| ==> Inside(s', j, c) && NothingOpen(s', j, c)
  {
    hide SysInv, Leads, NodeInv, Sized, ConnInv, Onward, PolledInput;
    var s1 := LandInput(cfg, s, j, |cfg.rings|);
    s' := PollInput(cfg, s1, j, |cfg.rings|);
    PollOnward(s1, s', j, |cfg.rings|);
    OnwardOn(s, s1, s');
    LeadsOn(cfg, s, s1, s');
    InsideSizes(cfg, s);
    InsideSizes(cfg, s1);
    InsideSizes(cfg, s');
    forall c: nat | c < |cfg.rings|
      ensures Inside(s1, j, c) && Inside(s', j, c) && NothingOpen(s', j, c)
      ensures SameView(s1.nodes[c].conns[j], s'.nodes[c].conns[j])
    {
      assert Inside(s1, j, c) && Inside(s', j, c);
      PolledViews(s1, s', j, c);
    }
  }

  lemma PolledViews(s: Sys, s': Sys, j: nat, c: nat)
    requires PolledInput(s, s', j, |s.nodes|) && Inside(s, j, c) && Inside(s', j, c)
    ensures NothingOpen(s', j, c) && SameView(s.nodes[c].conns[j], s'.nodes[c].conns[j])
  {
    assert NodePolled(s.nodes[c], s'.nodes[c], j, true);
  }

  // ---- room at the next target -----------------------------------------------------------------------------

  /** Input `j` runs and no other input that runs is behind it. */
  ghost predicate Last(s: Sys, j: nat)
  {
    && j < |s.inputs| && !Stopped(s.inputs[j])
    && forall k :: 0 <= k < |s.inputs| && !Stopped(s.inputs[k]) ==> s.inputs[j].timeslice <= s.inputs[k].timeslice
  }

  lemma LastStays(s: Sys, s': Sys, j: nat)
    requires Last(s, j) && Onward(s, s') && SameTimes(s, s')
    ensures Last(s', j)
  {
    forall k | 0 <= k < |s.inputs|
      ensures InputOnward(s.inputs[k], s'.inputs[k])
    {
    }
  }

  /** After a round trip everything the last input sent counts as written. */
  lemma LastWritten(cfg: Config, s: Sys, s': Sys, i: nat, j: nat, c: nat)
    requires Ready(cfg, s, i) && SysInv(cfg, s') && Last(s, j) && c < |cfg.rings| && NodeTurned(s, s', c, |s.inputs|)
    ensures Inside(s, j, c) && Inside(s', j, c) && s'.nodes[c].core.cw >= |s'.nodes[c].conns[j].sent|
  {
    hide SysInv, NodeInv, ConnInv, AskInv, Turned, FlagsOf, Affords;
    TurnedSent(s, s', j, c);
    InsideSizes(cfg, s);
    InsideSizes(cfg, s');
    InsideInv(cfg, s', j, c);
    assert Inside(s, i, c);
    SentMonotone(cfg, s, j, i, c);
    if s'.nodes[c].core.disconnected == {} {
      RedLantern(s'.nodes[c], cfg.rings[c]);
      var k := s'.nodes[c].core.redLantern;
      assert Inside(s, k, c) && Turned(s, s', k, c);
      TurnedReach(cfg, s, s', k, c);
      if !Stopped(s.inputs[k]) {
        SentMonotone(cfg, s, j, k, c);
        RunningReach(cfg, s, k, c);
      }
    }
  }

  lemma TurnedSent(s: Sys, s': Sys, j: nat, c: nat)
    requires NodeTurned(s, s', c, |s.inputs|) && j < |s.inputs|
    ensures Inside(s, j, c) && Inside(s', j, c) && s'.nodes[c].conns[j].sent == s.nodes[c].conns[j].sent
  {
    assert Turned(s, s', j, c);
  }

  lemma RunningReach(cfg: Config, s: Sys, k: nat, c: nat)
    requires SysInv(cfg, s) && Flags(cfg, s) && Inside(s, k, c) && !Stopped(s.inputs[k])
    ensures Reach(s, k, c) == |s.nodes[c].conns[k].sent| && !s.nodes[c].conns[k].snd.done
    ensures !s.nodes[c].conns[k].snd.finalizing
  {
    hide SysInv, NodeInv, ConnInv;
    InsideSizes(cfg, s);
    InsideInv(cfg, s, k, c);
    FlagsAt(cfg, s, k, c);
    var core := s.nodes[c].core;
    PairFacts(PairOf(s, k, c), core.acked, core.cw, cfg.rings[c]);
  }

  /** Two round trips at a compute node that does not ask for an abort, with the work done in
      between, leave nothing of the last input unacknowledged there. */
  lemma DrainLast(cfg: Config, s: Sys, i: nat, j: nat, c: nat) returns (s': Sys)
    requires Ready(cfg, s, i) && Last(s, j) && c < |cfg.rings| && Inside(s, j, c) && !Asks(PairOf(s, j, c))
    ensures Leads(cfg, s, s') && Onward(s, s') && SameTimes(s, s') && Ready(cfg, s', i)
    ensures Inside(s', j, c) && s'.nodes[c].conns[j].snd.cnAck == s'.nodes[c].conns[j].snd.cnWp
  {
    hide SysInv, Flags, AskInv, Leads, NodeInv, ConnInv, Sized, Onward, NodeTurned, Ready, Last, Asks;
    ReadyInv(cfg, s, i);
    var s1 := PassNode(cfg, s, c, |cfg.sources|);
    InsideSizes(cfg, s);
    PassOnward(cfg, s, s1, c, j);
    ReadyKeeps(cfg, s, s1, i);
    LastWritten(cfg, s, s1, i, j, c);
    var s2 := WorkNode(cfg, s1, c);
    WorkOnward(s1, s2, c);
    ReadyKeeps(cfg, s1, s2, i);
    ReadyInv(cfg, s2, i);
    OnwardOn(s, s1, s2);
    LeadsOn(cfg, s, s1, s2);
    InsideSizes(cfg, s2);
    OnwardAsks(s, s2, j, c);
    s' := PassNode(cfg, s2, c, |cfg.sources|);
    PassOnward(cfg, s2, s', c, j);
    ReadyKeeps(cfg, s2, s', i);
    OnwardOn(s, s2, s');
    LeadsOn(cfg, s, s2, s');
    LastStays(s, s2, j);
    RunningKnows(cfg, s2, s', j, c);
  }

  lemma ReadyInv(cfg: Config, s: Sys, i: nat)
    requires Ready(cfg, s, i)
    ensures SysInv(cfg, s) && Flags(cfg, s) && AskInv(s) && i < |s.inputs|
  {
    hide SysInv, Flags, AskInv;
  }

  lemma OnwardAsks(s: Sys, s': Sys, j: nat, c: nat)
    requires Onward(s, s') && Inside(s, j, c)
    ensures Inside(s', j, c) && (Asks(PairOf(s', j, c)) <==> Asks(PairOf(s, j, c)))
  {
    assert PairOnward(s, s', j, c);
  }

  /** An input that runs learns that everything it sent is acknowledged. */
  lemma RunningKnows(cfg: Config, s: Sys, s': Sys, j: nat, c: nat)
    requires SysInv(cfg, s) && Flags(cfg, s) && Last(s, j) && Inside(s, j, c) && NodeTurned(s, s', c, |s.inputs|)
    requires SysInv(cfg, s') && s.nodes[c].core.acked >= |s.nodes[c].conns[j].sent|
    ensures Inside(s', j, c) && s'.nodes[c].conns[j].snd.cnAck == s'.nodes[c].conns[j].snd.cnWp
  {
    hide SysInv, Flags, NodeInv, ConnInv;
    InsideSizes(cfg, s);
    RunningReach(cfg, s, j, c);
    InsideInv(cfg, s, j, c);
    var p := PairOf(s, j, c);
    PairFacts(p, s.nodes[c].core.acked, s.nodes[c].core.cw, cfg.rings[c]);
    assert Turned(s, s', j, c);
    assert p.c.snd.cnWp == WpAt(p.c.sent, |p.c.sent|) == p.e.cnAck;
    InsideInv(cfg, s', j, c);
    TokenPlace(PairOf(s', j, c), s'.nodes[c].core.acked, s'.nodes[c].core.cw, cfg.rings[c]);
  }

  /** A reply from before the request to abort is received. */
  lemma TakeReply(cfg: Config, s: Sys, i: nat, j: nat, c: nat) returns (s': Sys)
    requires Ready(cfg, s, i) && j < |s.inputs| && !Stopped(s.inputs[j]) && Inside(s, j, c) && Asks(PairOf(s, j, c))
    ensures Leads(cfg, s, s') && Onward(s, s') && SameTimes(s, s') && Ready(cfg, s', i)
    ensures Inside(s', j, c) && s'.nodes[c].conns[j].snd.cnAck == LastAck(s.nodes[c].conns[j])
  {
    hide SysInv, Flags, AskInv, Leads, NodeInv, ConnInv, Sized, Onward, Ready, Apply;
    ReadyInv(cfg, s, i);
    InsideSizes(cfg, s);
    var conn := s.nodes[c].conns[j];
    if |conn.toInput| > 0 && !conn.toInput[0].requestAbort {
      InvSized(cfg, s);
      LeadsStep(cfg, s, InputStatusStep(j, c));
      s' := Apply(cfg, s, InputStatusStep(j, c));
      OpMoves(cfg, s, j, c, OpReceive);
      ReplyTaken(cfg, s, s', j, c);
      MovedOnward(s, s', j, c);
    } else {
      s' := s;
      InvSized(cfg, s);
      LeadsSelf(cfg, s);
      OnwardSelf(s);
    }
    ReadyKeeps(cfg, s, s', i);
  }

  lemma ReplyTaken(cfg: Config, s: Sys, s': Sys, j: nat, c: nat)
    requires SysInv(cfg, s) && Flags(cfg, s) && Inside(s, j, c) && !Stopped(s.inputs[j]) && Asks(PairOf(s, j, c))
    requires |s.nodes[c].conns[j].toInput| > 0 && !s.nodes[c].conns[j].toInput[0].requestAbort
    requires Moved(s, s', j, c, ApplyOp(PairOf(s, j, c), OpReceive))
    ensures Inside(s', j, c) && Moved(s, s', j, c, PairOf(s', j, c)) && PairOnward(s, s', j, c)
    ensures s'.inputs[j].abort == s.inputs[j].abort
    ensures s'.nodes[c].conns[j].snd.cnAck == LastAck(s.nodes[c].conns[j])
  {
    hide SysInv, Flags, NodeInv, ConnInv;
    InsideSizes(cfg, s);
    InsideInv(cfg, s, j, c);
    RunningReach(cfg, s, j, c);
    var p, core := PairOf(s, j, c), s.nodes[c].core;
    TokenPlace(p, core.acked, core.cw, cfg.rings[c]);
    ReplyIs(p, core.acked, core.cw, cfg.rings[c]);
    FinalMeansFinalizing(p, core.acked, core.cw, cfg.rings[c]);
    MovedPair(s, s', j, c, ApplyOp(p, OpReceive));
  }

  /** The sender knows enough room for its next component. */
  ghost predicate Space(cfg: Config, s: Sys, j: nat, c: nat)
  {
    && cfg.Valid() && Sized(cfg, s) && j < |s.inputs| && c < |s.nodes|
    && var snd, n := s.nodes[c].conns[j].snd, |Payload(cfg.sources[j], cfg.sl, s.inputs[j].timeslice)|;
       && snd.cnWp.data + n + SkipFrom(snd.cnWp.data, cfg.rings[c], n) <= snd.cnAck.data + cfg.rings[c].DataSize()
       && snd.cnWp.desc + 1 <= snd.cnAck.desc + cfg.rings[c].DescSize()
  }

  /** The next timeslice can be afforded, so the last input can learn of room for it. */
  lemma FindSpace(cfg: Config, s: Sys, i: nat, j: nat) returns (s': Sys)
    requires Ready(cfg, s, i) && Last(s, j) && s.inputs[j].timeslice < cfg.maxTimeslices && cfg.Valid()
    ensures Leads(cfg, s, s') && Onward(s, s') && SameTimes(s, s') && Ready(cfg, s', i)
    ensures Space(cfg, s', j, TargetNode(cfg, s.inputs[j].timeslice))
  {
    hide SysInv, Flags, AskInv, Leads, Onward, Sized, Space, Reach;
    var t := s.inputs[j].timeslice;
    var c := TargetNode(cfg, t);
    InsideSizes(cfg, s);
    assert Affords(cfg, s, j) && Affordable(cfg, s, j, t);
    if Asks(PairOf(s, j, c)) {
      s' := TakeReply(cfg, s, i, j, c);
      InsideSizes(cfg, s');
      PositionOf(cfg, s', j, c);
      GrantedSpace(cfg, s', j, c);
    } else {
      s' := DrainLast(cfg, s, i, j, c);
      DrainedSpace(cfg, s', j, c);
    }
  }

  lemma GrantedSpace(cfg: Config, s: Sys, j: nat, c: nat)
    requires SysInv(cfg, s) && Flags(cfg, s) && Inside(s, j, c) && cfg.Valid()
    requires c == TargetNode(cfg, s.inputs[j].timeslice)
    requires Granted(cfg, j, c, |s.nodes[c].conns[j].sent|, s.nodes[c].conns[j].snd.cnAck)
    ensures Space(cfg, s, j, c)
  {
    hide SysInv, NodeInv, ConnInv, Payload, Pow2, SkipFrom, FlagsOf;
    InsideSizes(cfg, s);
    InvSized(cfg, s);
    InsideInv(cfg, s, j, c);
    var core := s.nodes[c].core;
    PairFacts(PairOf(s, j, c), core.acked, core.cw, cfg.rings[c]);
    NextTs(cfg, s, j, c);
    assert PlaceOf(cfg, j, c, s.nodes[c].conns[j]);
  }

  lemma DrainedSpace(cfg: Config, s: Sys, j: nat, c: nat)
    requires SysInv(cfg, s) && Flags(cfg, s) && Inside(s, j, c) && cfg.Valid()
    requires c == TargetNode(cfg, s.inputs[j].timeslice) && RoomFor(cfg, j, s.inputs[j].timeslice)
    requires s.nodes[c].conns[j].snd.cnAck == s.nodes[c].conns[j].snd.cnWp
    ensures Space(cfg, s, j, c)
  {
    hide SysInv, NodeInv, ConnInv, Payload, Pow2, FlagsOf, Place;
    InsideSizes(cfg, s);
    InvSized(cfg, s);
    PositionOf(cfg, s, j, c);
    assert PlaceOf(cfg, j, c, s.nodes[c].conns[j]);
  }

  // ---- sending everything ------------------------------------------------------------------------------------

  lemma SpaceStays(cfg: Config, s: Sys, s': Sys, j: nat, c: nat)
    requires Space(cfg, s, j, c) && SameTimes(s, s') && SameViews(s, s', j) && Sized(cfg, s')
    ensures Space(cfg, s', j, c)
  {
    hide Payload, Pow2, SkipFrom;
    assert Inside(s, j, c);
  }

  lemma SpaceSends(cfg: Config, s: Sys, j: nat, c: nat)
    requires SysInv(cfg, s) && Space(cfg, s, j, c) && cfg.maxPending > 0 && Inside(s, j, c) && NothingOpen(s, j, c)
    ensures CanSend(s.nodes[c].conns[j].snd, cfg.rings[c], cfg.maxPending,
                    |Payload(cfg.sources[j], cfg.sl, s.inputs[j].timeslice)|)
  {
    hide SysInv, NodeInv, ConnInv, Payload, Pow2, SkipFrom, CheckForBufferSpace;
    InsideInv(cfg, s, j, c);
    var conn, core := s.nodes[c].conns[j], s.nodes[c].core;
    SenderBounds(conn, core.ends[j], core.acked, core.cw, cfg.rings[c]);
    var n := |Payload(cfg.sources[j], cfg.sl, s.inputs[j].timeslice)|;
    CheckIsExact(conn.snd, cfg.rings[c], n + SkipRequired(conn.snd, cfg.rings[c], n), 1);
  }

  /** Input `j` has the next timeslice cut out and sends it into the room it knows of. */
  lemma SendInto(cfg: Config, s: Sys, j: nat) returns (s': Sys)
    requires SysInv(cfg, s) && Flags(cfg, s) && j < |s.inputs| && !Stopped(s.inputs[j]) && cfg.Valid()
    requires s.inputs[j].timeslice < cfg.maxTimeslices && j < |cfg.sources| && RoomFor(cfg, j, s.inputs[j].timeslice)
    requires Space(cfg, s, j, TargetNode(cfg, s.inputs[j].timeslice))
    requires forall c :: 0 <= c < |cfg.rings| ==> Inside(s, j, c) && NothingOpen(s, j, c)
    ensures Leads(cfg, s, s') && SysInv(cfg, s') && Onward(s, s') && SentOne(s, s', j)
  {
    hide SysInv, Flags, Leads, Sized, Onward, Apply, Space, Payload, CanSend, RoomFor, NothingOpen, Available;
    InsideSizes(cfg, s);
    var c := TargetNode(cfg, s.inputs[j].timeslice);
    RunningReach(cfg, s, j, c);
    var s1 := CutNext(cfg, s, j);
    SourceOnward(s, s1, j);
    InvSized(cfg, s1);
    InsideSizes(cfg, s1);
    SpaceStays(cfg, s, s1, j, c);
    RoomPending(cfg, s, j);
    OpenStays(s, s1, j, c);
    SpaceSends(cfg, s1, j, c);
    SendsInto(cfg, s1, j);
    LeadsStep(cfg, s1, SendNext(j));
    s' := Apply(cfg, s1, SendNext(j));
    SendOnward(cfg, s1, j);
    OnwardOn(s, s1, s');
    LeadsOn(cfg, s, s1, s');
  }

  lemma RoomPending(cfg: Config, s: Sys, j: nat)
    requires cfg.Valid() && j < |cfg.sources| && j < |s.inputs| && RoomFor(cfg, j, s.inputs[j].timeslice)
    ensures cfg.maxPending > 0
  {
  }

  lemma OpenStays(s: Sys, s': Sys, j: nat, c: nat)
    requires Inside(s, j, c) && Inside(s', j, c) && s'.nodes == s.nodes && NothingOpen(s, j, c)
    ensures NothingOpen(s', j, c)
  {
  }

  /** The last input that runs sends its next timeslice without hearing of an abort. */
  lemma SendLast(cfg: Config, s: Sys, i: nat, j: nat) returns (s': Sys)
    requires Ready(cfg, s, i) && Last(s, j) && s.inputs[j].timeslice < cfg.maxTimeslices && cfg.Valid()
    ensures Leads(cfg, s, s') && Ready(cfg, s', i)
    ensures Remaining(s'.inputs, cfg.maxTimeslices) < Remaining(s.inputs, cfg.maxTimeslices)
  {
    hide SysInv, Flags, AskInv, Leads, Onward, Sized, Space, Ready, Last, RoomFor, NothingOpen;
    ReadyInv(cfg, s, i);
    InsideSizes(cfg, s);
    NextRoom(cfg, s, i, j);
    var s1 := FindSpace(cfg, s, i, j);
    ReadyInv(cfg, s1, i);
    InsideSizes(cfg, s1);
    var s2 := SeeWrites(cfg, s1, j);
    ReadyKeeps(cfg, s1, s2, i);
    ReadyInv(cfg, s2, i);
    InvSized(cfg, s2);
    SpaceStays(cfg, s1, s2, j, TargetNode(cfg, s.inputs[j].timeslice));
    OnwardOn(s, s1, s2);
    LastStays(s, s2, j);
    LastRuns(s2, j);
    s' := SendInto(cfg, s2, j);
    ReadyKeeps(cfg, s2, s', i);
    LeadsOn(cfg, s, s1, s2);
    LeadsOn(cfg, s, s2, s');
    RemainingSame(s.inputs, s2.inputs, cfg.maxTimeslices);
    RemainingDrops(s2.inputs, s'.inputs, j, cfg.maxTimeslices);
  }

  lemma LastRuns(s: Sys, j: nat)
    requires Last(s, j)
    ensures j < |s.inputs| && !Stopped(s.inputs[j])
  {
  }

  lemma NextRoom(cfg: Config, s: Sys, i: nat, j: nat)
    requires Ready(cfg, s, i) && Last(s, j) && s.inputs[j].timeslice < cfg.maxTimeslices && cfg.Valid()
    ensures j < |cfg.sources| && RoomFor(cfg, j, s.inputs[j].timeslice)
  {
    hide SysInv, Flags, AskInv, RoomFor;
    InsideSizes(cfg, s);
    assert Affords(cfg, s, j) && Affordable(cfg, s, j, s.inputs[j].timeslice);
  }

  /** Whoever still runs has sent everything. */
  ghost predicate RunnersSent(cfg: Config, s: Sys)
  {
    forall k :: 0 <= k < |s.inputs| && !Stopped(s.inputs[k]) ==> s.inputs[k].timeslice == cfg.maxTimeslices
  }

  /** The running input furthest behind, if there is one. */
  lemma FindLast(s: Sys) returns (j: nat)
    requires exists k :: 0 <= k < |s.inputs| && !Stopped(s.inputs[k])
    ensures Last(s, j)
  {
    var k :| 0 <= k < |s.inputs| && !Stopped(s.inputs[k]);
    j := LastUpTo(s, k, |s.inputs|);
  }

  lemma {:induction false} LastUpTo(s: Sys, start: nat, n: nat) returns (j: nat)
    requires start < |s.inputs| && !Stopped(s.inputs[start]) && n <= |s.inputs|
    ensures j < |s.inputs| && !Stopped(s.inputs[j])
    ensures forall k :: 0 <= k < n && !Stopped(s.inputs[k]) ==> s.inputs[j].timeslice <= s.inputs[k].timeslice
    decreases n
  {
    if n == 0 {
      j := start;
    } else {
      j := LastUpTo(s, start, n - 1);
      if !Stopped(s.inputs[n - 1]) && s.inputs[n - 1].timeslice < s.inputs[j].timeslice {
        j := n - 1;
      }
    }
  }

  lemma {:induction false} SendRest(cfg: Config, s: Sys, i: nat) returns (s': Sys)
    requires Ready(cfg, s, i) && cfg.Valid()
    ensures Leads(cfg, s, s') && Ready(cfg, s', i) && RunnersSent(cfg, s')
    decreases Remaining(s.inputs, cfg.maxTimeslices)
  {
    hide SysInv, Flags, AskInv, Leads, Sized, Ready;
    ReadyInv(cfg, s, i);
    AtMost(cfg, s);
    if RunnersSent(cfg, s) {
      s' := s;
      InvSized(cfg, s);
      LeadsSelf(cfg, s);
    } else {
      var j := FindLast(s);
      var s1 := SendLast(cfg, s, i, j);
      s' := SendRest(cfg, s1, i);
      LeadsOn(cfg, s, s1, s');
    }
  }

  lemma AtMost(cfg: Config, s: Sys)
    requires Flags(cfg, s)
    ensures forall k :: 0 <= k < |s.inputs| ==> s.inputs[k].timeslice <= cfg.maxTimeslices
  {
  }

  // ---- finishing ---------------------------------------------------------------------------------------------

  /** The same timeslices were sent by two inputs that have sent everything. */
  lemma SentSame(cfg: Config, s: Sys, i: nat, k: nat, c: nat)
    requires SysInv(cfg, s) && Inside(s, i, c) && Inside(s, k, c)
    requires s.inputs[i].timeslice == s.inputs[k].timeslice
    ensures |s.nodes[c].conns[i].sent| == |s.nodes[c].conns[k].sent|
  {
    hide SysInv;
    SentMonotone(cfg, s, i, k, c);
    SentMonotone(cfg, s, k, i, c);
  }

  /** Finishing without abort says nothing final before everything is acknowledged. */
  lemma FinishedReach(cfg: Config, s: Sys, s': Sys, k: nat, c: nat)
    requires SysInv(cfg, s) && Flags(cfg, s) && Inside(s, k, c) && !Stopped(s.inputs[k]) && FinishedOne(s, s', k)
    ensures Inside(s', k, c) && Reach(s', k, c) >= |s.nodes[c].conns[k].sent|
    ensures s'.nodes[c].conns[k].sent == s.nodes[c].conns[k].sent
  {
    hide SysInv, Flags, NodeInv, ConnInv;
    InsideSizes(cfg, s);
    InsideInv(cfg, s, k, c);
    var core := s.nodes[c].core;
    PairFacts(PairOf(s, k, c), core.acked, core.cw, cfg.rings[c]);
    RunningReach(cfg, s, k, c);
  }

  lemma FinishedOther(s: Sys, s': Sys, k: nat, m: nat, c: nat)
    requires FinishedOne(s, s', k) && Inside(s, m, c) && m != k
    ensures Inside(s', m, c) && s'.nodes[c].core == s.nodes[c].core && s'.nodes[c].conns[m] == s.nodes[c].conns[m]
    ensures s'.inputs[m] == s.inputs[m]
  {
    hide FinalizeConn;
  }

  lemma FinishedReady(cfg: Config, s: Sys, s': Sys, i: nat, k: nat)
    requires Ready(cfg, s, i) && FinishedOne(s, s', k) && Leads(cfg, s, s')
    requires !Stopped(s.inputs[k]) && s.inputs[k].timeslice == cfg.maxTimeslices
    ensures Ready(cfg, s', i)
  {
    hide SysInv, Flags, AskInv, Leads, Sized, FinishedOne, Affords;
    LeadsKeeps(cfg, s, s');
    LeadsAsk(cfg, s, s');
    InsideSizes(cfg, s);
    InsideSizes(cfg, s');
    assert Inside(s, i, 0) || |s.nodes| == 0;
    forall m: nat, c: nat | Inside(s', m, c) && Inside(s', i, c) && Stopped(s'.inputs[m])
      ensures Reach(s', m, c) >= |s'.nodes[c].conns[i].sent|
    {
      assert Inside(s, m, c) && Inside(s, i, c);
      FinishedOther(s, s', k, i, c);
      if m == k {
        FinishedReach(cfg, s, s', k, c);
        SentSame(cfg, s, i, k, c);
      } else {
        FinishedOther(s, s', k, m, c);
      }
    }
    FinishedRest(cfg, s, s', i, k);
  }

  lemma FinishedRest(cfg: Config, s: Sys, s': Sys, i: nat, k: nat)
    requires Ready(cfg, s, i) && SysInv(cfg, s') && FinishedOne(s, s', k) && !Stopped(s.inputs[k])
    ensures i < |s'.inputs| && s'.inputs[i] == s.inputs[i]
    ensures forall c: nat :: Inside(s', i, c) ==>
              s'.nodes[c].core.disconnected == {} || s'.nodes[c].core.cw >= |s'.nodes[c].conns[i].sent|
    ensures forall j: nat :: j < |s'.inputs| && !Stopped(s'.inputs[j]) ==> Affords(cfg, s', j)
  {
    hide SysInv, Flags, AskInv, Sized, FinalizeConn, Affords;
    InsideSizes(cfg, s);
    InsideSizes(cfg, s');
    forall c: nat | Inside(s', i, c)
      ensures s'.nodes[c].core.disconnected == {} || s'.nodes[c].core.cw >= |s'.nodes[c].conns[i].sent|
    {
      assert Inside(s, i, c);
      FinishedOther(s, s', k, i, c);
    }
    forall j: nat | j < |s'.inputs| && !Stopped(s'.inputs[j])
      ensures Affords(cfg, s', j)
    {
      FinishedAffords(cfg, s, s', k, j);
    }
  }

  lemma FinishedAffords(cfg: Config, s: Sys, s': Sys, k: nat, j: nat)
    requires SysInv(cfg, s) && SysInv(cfg, s') && FinishedOne(s, s', k) && j < |s.inputs| && j != k
    requires Affords(cfg, s, j)
    ensures Affords(cfg, s', j)
  {
    hide SysInv, FinishedOne, RoomFor, Granted, LastAck;
    InsideSizes(cfg, s);
    InvSized(cfg, s');
    forall t: nat | j < |s'.inputs| && s'.inputs[j].timeslice <= t < cfg.maxTimeslices
      ensures Affordable(cfg, s', j, t)
    {
      var c := TargetNode(cfg, t);
      assert Inside(s, j, c);
      FinishedOther(s, s', k, j, c);
      assert Affordable(cfg, s, j, t);
    }
  }

  /** The first `n` inputs have stopped: those that ran have finished. */
  lemma {:induction false} FinishRunners(cfg: Config, s: Sys, i: nat, n: nat) returns (s': Sys)
    requires Ready(cfg, s, i) && RunnersSent(cfg, s) && n <= |s.inputs|
    ensures Leads(cfg, s, s') && Ready(cfg, s', i) && RunnersSent(cfg, s') && |s'.inputs| == |s.inputs|
    ensures forall k :: 0 <= k < n ==> Stopped(s'.inputs[k])
    decreases n
  {
    hide SysInv, Flags, AskInv, Leads, Sized, Ready, Onward, FinishedOne, NothingOpen;
    ReadyInv(cfg, s, i);
    if n == 0 {
      s' := s;
      InvSized(cfg, s);
      LeadsSelf(cfg, s);
    } else {
      var k := n - 1;
      var s1 := FinishRunners(cfg, s, i, k);
      if Stopped(s1.inputs[k]) {
        s' := s1;
      } else {
        s' := FinishNext(cfg, s1, i, k);
        LeadsOn(cfg, s, s1, s');
      }
    }
  }

  lemma FinishNext(cfg: Config, s: Sys, i: nat, k: nat) returns (s': Sys)
    requires Ready(cfg, s, i) && RunnersSent(cfg, s) && k < |s.inputs| && !Stopped(s.inputs[k])
    ensures Leads(cfg, s, s') && Ready(cfg, s', i) && RunnersSent(cfg, s') && |s'.inputs| == |s.inputs|
    ensures forall m :: 0 <= m < |s.inputs| ==> Stopped(s'.inputs[m]) == (Stopped(s.inputs[m]) || m == k)
  {
    hide SysInv, Flags, AskInv, Leads, Sized, Ready, Onward, NothingOpen, FinalizeConn;
    ReadyInv(cfg, s, i);
    InsideSizes(cfg, s);
    var s1 := SeeWrites(cfg, s, k);
    ReadyKeeps(cfg, s, s1, i);
    OnwardInputs(s, s1);
    s' := FinishAt(cfg, s1, k);
    FinishedReady(cfg, s1, s', i, k);
    LeadsOn(cfg, s, s1, s');
  }

  lemma OnwardInputs(s: Sys, s': Sys)
    requires Onward(s, s')
    ensures |s'.inputs| == |s.inputs| && forall k :: 0 <= k < |s.inputs| ==> InputOnward(s.inputs[k], s'.inputs[k])
  {
  }

  // ---- the end -----------------------------------------------------------------------------------------------

  lemma ReadyNotStuck(cfg: Config, s: Sys, i: nat)
    requires Ready(cfg, s, i)
    ensures NoneStuck(s)
  {
    hide SysInv, AskInv, PlaceOf, AbortsAlike, Affords;
    InsideSizes(cfg, s);
    forall k: nat, c: nat
      ensures !Stuck(s, k, c)
    {
      if Waiting(s, k, c) {
        assert Inside(s, i, c);
        FlagsAt(cfg, s, k, c);
        SentSame(cfg, s, i, k, c);
      }
    }
  }

  lemma EndFrom(cfg: Config, s: Sys, i: nat)
    requires Ready(cfg, s, i) && cfg.Valid()
    ensures CanEnd(cfg, s)
  {
    hide SysInv, Flags, AskInv, Leads, Sized, Ready, NoneStuck, AllDone, Run, CanEnd;
    var s1 := SendRest(cfg, s, i);
    ReadyInv(cfg, s1, i);
    var s2 := FinishRunners(cfg, s1, i, |s1.inputs|);
    ReadyInv(cfg, s2, i);
    ReadyNotStuck(cfg, s2, i);
    var s3 := EndStopped(cfg, s2);
    LeadsOn(cfg, s, s1, s2);
    LeadsOn(cfg, s, s2, s3);
    var steps := LeadsSteps(cfg, s, s3);
    EndsBy(cfg, s, steps);
  }

  /** Every input that runs can afford all it has to send. */
  ghost predicate AllAfford(cfg: Config, s: Sys)
  {
    forall j: nat :: j < |s.inputs| && !Stopped(s.inputs[j]) ==> Affords(cfg, s, j)
  }

  lemma ReadyAt(cfg: Config, s: Sys, i: nat, c0: nat, c: nat)
    requires SysInv(cfg, s) && Flags(cfg, s) && Waiting(s, i, c0) && NoneStuck(s) && Inside(s, i, c)
    ensures s.nodes[c].core.disconnected == {} || s.nodes[c].core.cw >= |s.nodes[c].conns[i].sent|
    ensures forall k: nat :: Inside(s, k, c) && Stopped(s.inputs[k]) ==>
              Reach(s, k, c) >= |s.nodes[c].conns[i].sent|
  {
    hide SysInv, NodeInv, ConnInv, PlaceOf;
    InsideSizes(cfg, s);
    assert !Stuck(s, i, c);
    FlagsAt(cfg, s, i, c);
    FlagsAt(cfg, s, i, c0);
    InsideInv(cfg, s, i, c);
    var core := s.nodes[c].core;
    PairFacts(PairOf(s, i, c), core.acked, core.cw, cfg.rings[c]);
    forall k: nat | Inside(s, k, c) && Stopped(s.inputs[k])
      ensures Reach(s, k, c) >= |s.nodes[c].conns[i].sent|
    {
      InsideInv(cfg, s, k, c);
      PairFacts(PairOf(s, k, c), core.acked, core.cw, cfg.rings[c]);
      assert !Blocks(s, k, i, c) || !Waiting(s, i, c);
    }
  }

  lemma ReadyFrom(cfg: Config, s: Sys, i: nat, c0: nat)
    requires SysInv(cfg, s) && Flags(cfg, s) && AskInv(s) && Waiting(s, i, c0) && NoneStuck(s) && AllAfford(cfg, s)
    ensures Ready(cfg, s, i)
  {
    hide SysInv, Flags, AskInv, NoneStuck, Affords, Reach;
    FlagsAt(cfg, s, i, c0);
    forall c: nat | Inside(s, i, c)
      ensures s.nodes[c].core.disconnected == {} || s.nodes[c].core.cw >= |s.nodes[c].conns[i].sent|
      ensures forall k: nat :: Inside(s, k, c) && Stopped(s.inputs[k]) ==>
                Reach(s, k, c) >= |s.nodes[c].conns[i].sent|
    {
      ReadyAt(cfg, s, i, c0, c);
    }
  }

  /** From every state of every run all connections can still end if and only if no input waits to
      finish without abort, or no connection is stuck and every input that has neither finished nor
      heard of an abort can afford all the timeslices it has left. */
  lemma CanEndExactly(cfg: Config, s0: Sys, before: seq<Step>)
    requires cfg.Valid() && Init(cfg, s0)
    ensures var s := Run(cfg, s0, before);
            CanEnd(cfg, s) <==> NoneWaiting(s) || (NoneStuck(s) && AllAfford(cfg, s))
  {
    hide SysInv, Flags, AskInv, Apply, Run, AllDone, Waiting, Stuck, CanEnd, Sized, Affordable, Ready;
    InitInv(cfg, s0);
    InitFlags(cfg, s0);
    InitAsk(cfg, s0);
    RunKeepsAll(cfg, s0, before);
    RunAsks(cfg, s0, before);
    var s := Run(cfg, s0, before);
    if NoneWaiting(s) {
      AbortEnds(cfg, s0, before);
    } else {
      var i: nat, c: nat :| Waiting(s, i, c);
      if !NoneStuck(s) {
        var k: nat, d: nat :| Stuck(s, k, d);
        StuckCannotEnd(cfg, s, k, d);
      } else if AllAfford(cfg, s) {
        ReadyFrom(cfg, s, i, c);
        EndFrom(cfg, s, i);
      } else {
        var j: nat :| j < |s.inputs| && !Stopped(s.inputs[j]) && !Affords(cfg, s, j);
        var t: nat :| s.inputs[j].timeslice <= t < cfg.maxTimeslices && !Affordable(cfg, s, j, t);
        HeldCannotEnd(cfg, s, i, c, j, t);
      }
    }
  }
}
