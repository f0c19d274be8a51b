/** Progress: from where the protocol can still come to its end. */
module Progress {
  import opened RingMath
  import opened Wire
  import opened InputChannelConnection
  import opened Connection
  import opened ComputeNode
  import opened InputChannelSender
  import opened System
  import opened SystemProofs
  import opened Cycle
  import opened Continuation
  import opened FlagInvariants
  import opened Room

  // ---- settling -----------------------------------------------------------------------------------

  lemma PairFacts(p: Pair, acked: nat, cw: nat, r: Rings)
    requires PairInv(p, acked, cw, r)
    ensures p.c.snd.cnWp.desc == |p.c.sent| && p.e.cnAck.desc == acked && p.c.snd.cnAck.desc <= acked
    ensures acked <= cw <= p.e.cnWp.desc <= p.c.landedDesc <= |p.c.sent|
    ensures IsWp(p.c.sent, p.c.snd.cnWp) && IsWp(p.c.sent, p.c.snd.cnAck) && IsWp(p.c.sent, p.e.cnAck)
    ensures p.c.snd.done ==> p.c.snd.sendMsg.final && p.e.sendMsg.final
    ensures p.e.sendMsg.final ==> p.c.snd.sendMsg.final && p.e.recvMsg == p.c.snd.sendMsg
    ensures p.c.snd.sendMsg.final ==> p.c.snd.finalizing && p.c.snd.sendMsg.abort == p.c.snd.aborting
    ensures p.c.snd.sendMsg.final && !p.c.snd.aborting ==>
              acked == cw == p.e.cnWp.desc == p.c.landedDesc == |p.c.sent| && p.c.snd.cnAck == p.c.snd.cnWp
    ensures p.c.polled <= |p.c.sent| && p.c.snd.pending == |p.c.sent| - p.c.polled
  {
    hide Memory, InFlight, Told, StatusCount;
  }

  /** What a connection that does not abort knows after a round trip. */
  ghost predicate Knows(s: Sys, i: nat, c: nat)
  {
    && Inside(s, i, c)
    && var conn, core := s.nodes[c].conns[i], s.nodes[c].core;
       && conn.landedDesc == |conn.sent| == core.ends[i].cnWp.desc
       && conn.snd.cnAck.desc == core.acked <= |conn.sent|
       && (!conn.snd.finalizing ==> conn.snd.ourTurn)
  }

  lemma TurnedKnows(cfg: Config, s: Sys, s': Sys, i: nat, c: nat)
    requires SysInv(cfg, s) && SysInv(cfg, s') && i < |cfg.sources| && c < |cfg.rings|
    requires Turned(s, s', i, c) && NodeSame(s.nodes[c], s'.nodes[c]) && !s.nodes[c].conns[i].snd.aborting
    ensures Knows(s', i, c) && s'.nodes[c].conns[i].sent == s.nodes[c].conns[i].sent
    ensures SameConnFlags(s.nodes[c].conns[i], s'.nodes[c].conns[i])
  {
    hide SysInv, ConnInv, NodeInv;
    InsideInv(cfg, s, i, c);
    InsideInv(cfg, s', i, c);
    PairFacts(PairOf(s, i, c), s.nodes[c].core.acked, s.nodes[c].core.cw, cfg.rings[c]);
    PairFacts(PairOf(s', i, c), s'.nodes[c].core.acked, s'.nodes[c].core.cw, cfg.rings[c]);
  }

  /** No input aborts. */
  ghost predicate NoneAborts(s: Sys)
  {
    forall i: nat, c: nat :: Inside(s, i, c) ==> !s.nodes[c].conns[i].snd.aborting
  }

  lemma UnaskedNoneAborts(cfg: Config, s: Sys)
    requires Flags(cfg, s) && Unasked(s)
    ensures NoneAborts(s)
  {
    forall i: nat, c: nat | Inside(s, i, c)
      ensures !s.nodes[c].conns[i].snd.aborting
    {
      assert FlagsOf(cfg, s.inputs[i], s.nodes[c].conns[i].snd);
      assert !PairOf(s, i, c).asked;
    }
  }

  /** Without aborts the position up to which everything is written is the smallest received
      write pointer, whoever has left. */
  lemma SlowestIs(cfg: Config, s: Sys, c: nat) returns (j: nat)
    requires SysInv(cfg, s) && c < |cfg.rings| && NoneAborts(s)
    ensures Inside(s, j, c) && s.nodes[c].core.ends[j].cnWp.desc == s.nodes[c].core.cw
  {
    hide SysInv, ConnInv, NodeInv, Linked, InputInv, Sized;
    InvSized(cfg, s);
    InsideSizes(cfg, s);
    InsideInv(cfg, s, 0, c);
    var n := s.nodes[c];
    WrittenIsMinimum(n, cfg.rings[c]);
    forall i | i in n.core.disconnected && i < |n.core.ends|
      ensures !n.core.ends[i].recvMsg.abort
    {
      InsideInv(cfg, s, i, c);
      LeftDone(n, i, cfg.rings[c]);
      PairFacts(PairOf(s, i, c), n.core.acked, n.core.cw, cfg.rings[c]);
    }
    j :| 0 <= j < |n.core.ends| && n.core.ends[j].cnWp.desc == n.core.cw;
    assert Inside(s, j, c);
  }

  lemma LeftDone(n: Node, i: nat, r: Rings)
    requires NodeInv(n, r) && i in n.core.disconnected
    ensures i < |n.conns| && n.conns[i].snd.done
  {
    hide ConnInv;
  }

  /** Everything is known to everyone, and everything that can be acknowledged is. */
  ghost predicate Settled(s: Sys)
  {
    && (forall i, c :: 0 <= i < |s.inputs| && 0 <= c < |s.nodes| ==> Knows(s, i, c) && NothingOpen(s, i, c))
    && (forall c :: 0 <= c < |s.nodes| ==> Lowest(s, c))
  }

  ghost predicate NothingOpen(s: Sys, i: nat, c: nat)
    requires Inside(s, i, c)
  {
    s.nodes[c].conns[i].polled == |s.nodes[c].conns[i].sent| && s.nodes[c].conns[i].snd.pending == 0
  }

  /** What is acknowledged is what the slowest input has sent. */
  ghost predicate Lowest(s: Sys, c: nat)
  {
    exists j: nat :: Inside(s, j, c) && s.nodes[c].core.acked == |s.nodes[c].conns[j].sent|
  }

  /** The same things were sent, and the inputs are where they were. */
  ghost predicate SameSent(s: Sys, s': Sys)
  {
    && |s'.inputs| == |s.inputs| && |s'.nodes| == |s.nodes|
    && (forall i :: 0 <= i < |s.inputs| ==>
          s'.inputs[i].timeslice == s.inputs[i].timeslice && s'.inputs[i].finalizing == s.inputs[i].finalizing)
    && (forall i: nat, c: nat :: Inside(s, i, c) && Inside(s', i, c) ==>
          s'.nodes[c].conns[i].sent == s.nodes[c].conns[i].sent)
  }

  /** A round trip on every connection, without aborts. */
  lemma PassKnows(cfg: Config, s: Sys) returns (s': Sys)
    requires SysInv(cfg, s) && Flags(cfg, s) && NoneAborts(s)
    ensures Leads(cfg, s, s') && SysInv(cfg, s') && Flags(cfg, s') && (Unasked(s) ==> Unasked(s')) && SameSent(s, s')
    ensures forall i, c :: 0 <= i < |s'.inputs| && 0 <= c < |s'.nodes| ==> Knows(s', i, c)
    ensures forall c :: 0 <= c < |s.nodes| == |s'.nodes| ==> s'.nodes[c].core.acked == s.nodes[c].core.acked
    ensures NoneAborts(s')
  {
    hide SysInv, Flags, Unasked, Leads, ConnInv, NodeInv, Cycled, Sized, Turned, Knows;
    s' := Pass(cfg, s, |cfg.rings|);
    LeadsKeeps(cfg, s, s');
    InsideSizes(cfg, s);
    InsideSizes(cfg, s');
    forall i: nat, c: nat | Inside(s, i, c)
      ensures Inside(s', i, c) && Knows(s', i, c) && s'.nodes[c].conns[i].sent == s.nodes[c].conns[i].sent
      ensures SameConnFlags(s.nodes[c].conns[i], s'.nodes[c].conns[i])
    {
      assert Turned(s, s', i, c) && NodeSame(s.nodes[c], s'.nodes[c]);
      TurnedKnows(cfg, s, s', i, c);
    }
    forall i, c | 0 <= i < |s'.inputs| && 0 <= c < |s'.nodes|
      ensures Knows(s', i, c)
    {
      assert Inside(s, i, c);
    }
    forall i: nat, c: nat | Inside(s', i, c)
      ensures !s'.nodes[c].conns[i].snd.aborting
    {
      assert Inside(s, i, c);
      assert SameConnFlags(s.nodes[c].conns[i], s'.nodes[c].conns[i]);
    }
  }

  /** Completing all items acknowledges all that the slowest input has sent. */
  lemma WorkLowest(cfg: Config, s: Sys) returns (s': Sys)
    requires SysInv(cfg, s) && Flags(cfg, s) && NoneAborts(s)
    requires forall i, c :: 0 <= i < |s.inputs| && 0 <= c < |s.nodes| ==> Knows(s, i, c)
    ensures Leads(cfg, s, s') && SysInv(cfg, s') && Flags(cfg, s') && (Unasked(s) ==> Unasked(s')) && SameSent(s, s')
    ensures NoneAborts(s') && forall c :: 0 <= c < |s'.nodes| ==> Lowest(s', c)
  {
    hide SysInv, Flags, Unasked, Leads, ConnInv, NodeInv, Sized;
    s' := WorkAll(cfg, s, |cfg.rings|);
    LeadsKeeps(cfg, s, s');
    InsideSizes(cfg, s);
    InsideSizes(cfg, s');
    forall i: nat, c: nat | Inside(s', i, c)
      ensures Inside(s, i, c) && s'.nodes[c].conns == s.nodes[c].conns
    {
      assert Worked(s.nodes[c], s'.nodes[c]);
    }
    forall c | 0 <= c < |s'.nodes|
      ensures Lowest(s', c)
    {
      var j := SlowestIs(cfg, s', c);
      assert Worked(s.nodes[c], s'.nodes[c]) && Knows(s, j, c);
      assert s'.nodes[c].core.acked == |s'.nodes[c].conns[j].sent|;
    }
  }

  lemma LowestKept(s: Sys, s': Sys, c: nat)
    requires Lowest(s, c) && SameSent(s, s') && c < |s'.nodes| && s'.nodes[c].core.acked == s.nodes[c].core.acked
    requires forall j: nat :: Inside(s, j, c) ==> Inside(s', j, c)
    ensures Lowest(s', c)
  {
    var j: nat :| Inside(s, j, c) && s.nodes[c].core.acked == |s.nodes[c].conns[j].sent|;
    assert Inside(s', j, c);
  }

  lemma SameSentOn(s: Sys, s1: Sys, s2: Sys)
    requires SameSent(s, s1) && SameSent(s1, s2)
    requires forall i: nat, c: nat :: Inside(s, i, c) ==> Inside(s1, i, c)
    ensures SameSent(s, s2)
  {
    forall i: nat, c: nat | Inside(s, i, c) && Inside(s2, i, c)
      ensures s2.nodes[c].conns[i].sent == s.nodes[c].conns[i].sent
    {
      assert Inside(s1, i, c);
    }
  }

  /** Seeing all write completions. */
  lemma PollSettles(cfg: Config, s: Sys) returns (s': Sys)
    requires SysInv(cfg, s) && Flags(cfg, s)
    requires forall i, c :: 0 <= i < |s.inputs| && 0 <= c < |s.nodes| ==> Knows(s, i, c)
    requires forall c :: 0 <= c < |s.nodes| ==> Lowest(s, c)
    ensures Leads(cfg, s, s') && SysInv(cfg, s') && Flags(cfg, s') && (Unasked(s) ==> Unasked(s'))
    ensures SameSent(s, s') && Settled(s')
  {
    hide SysInv, Flags, Unasked, Leads, ConnInv, NodeInv, Sized;
    InsideSizes(cfg, s);
    forall i, c | 0 <= i < |cfg.sources| && 0 <= c < |cfg.rings|
      ensures HasLanded(s, i, c)
    {
      assert Knows(s, i, c);
    }
    s' := PollInputs(cfg, s, |cfg.sources|);
    LeadsKeeps(cfg, s, s');
    InsideSizes(cfg, s');
    forall i: nat, c: nat | Inside(s, i, c)
      ensures Inside(s', i, c) && Polled(s.nodes[c].conns[i], s'.nodes[c].conns[i])
      ensures s'.nodes[c].core == s.nodes[c].core
    {
      assert NodeAllPolled(s.nodes[c], s'.nodes[c], |cfg.sources|);
    }
    assert SameSent(s, s');
    forall i, c | 0 <= i < |s'.inputs| && 0 <= c < |s'.nodes|
      ensures Knows(s', i, c) && NothingOpen(s', i, c)
    {
      assert Knows(s, i, c);
    }
    forall c | 0 <= c < |s'.nodes|
      ensures Lowest(s', c)
    {
      assert Inside(s, 0, c) || |s.inputs| == 0;
      LowestKept(s, s', c);
    }
  }

  /** From every state without aborts a settled one can be reached, with the same things sent. */
  lemma Settle(cfg: Config, s: Sys) returns (s': Sys)
    requires SysInv(cfg, s) && Flags(cfg, s) && Unasked(s)
    ensures Leads(cfg, s, s') && SysInv(cfg, s') && Flags(cfg, s') && Unasked(s') && SameSent(s, s') && Settled(s')
  {
    hide SysInv, Flags, Unasked, Leads, ConnInv, NodeInv, Sized, Knows, Settled;
    UnaskedNoneAborts(cfg, s);
    var s1 := PassKnows(cfg, s);
    var s2 := WorkLowest(cfg, s1);
    var s3 := PassKnows(cfg, s2);
    InsideSizes(cfg, s);
    InsideSizes(cfg, s1);
    InsideSizes(cfg, s2);
    InsideSizes(cfg, s3);
    forall c | 0 <= c < |s3.nodes|
      ensures Lowest(s3, c)
    {
      LowestKept(s2, s3, c);
    }
    s' := PollSettles(cfg, s3);
    SameSentOn(s, s1, s2);
    SameSentOn(s, s2, s3);
    SameSentOn(s, s3, s');
    LeadsOn(cfg, s, s1, s2);
    LeadsOn(cfg, s, s2, s3);
    LeadsOn(cfg, s, s3, s');
  }

  // ---- ending ---------------------------------------------------------------------------------------

  /** Every connection has come to its end on both sides: the input has its final reply and has
      left, and the compute node has sent that reply. */
  ghost predicate AllDone(s: Sys)
  {
    forall i: nat, c: nat :: Inside(s, i, c) ==>
      s.nodes[c].conns[i].snd.done && s.nodes[c].core.ends[i].done && i in s.nodes[c].core.disconnected
  }

  /** Every input has its final replies. */
  ghost predicate AllReplied(s: Sys)
  {
    forall i: nat, c: nat :: Inside(s, i, c) ==> s.nodes[c].conns[i].snd.done
  }

  /** Of compute node `a` the first `n` connections are closed now; nothing else happened. */
  ghost predicate NodeClosed(a: Node, b: Node, n: nat)
  {
    && b.conns == a.conns && |b.core.ends| == |a.core.ends| && b.core.acked == a.core.acked
    && (forall i :: 0 <= i < n && i < |a.core.ends| ==> b.core.ends[i].done && i in b.core.disconnected)
    && (forall i :: 0 <= i < |a.core.ends| ==> b.core.ends[i].sendMsg == a.core.ends[i].sendMsg)
  }

  ghost predicate ClosedOne(a: Node, b: Node, i: nat)
  {
    && b.conns == a.conns && i < |a.core.ends| == |b.core.ends| && b.core.acked == a.core.acked
    && b.core.ends == a.core.ends[i := a.core.ends[i].(done := true)]
    && b.core.disconnected == a.core.disconnected + {i}
  }

  lemma CloseAt(cfg: Config, s: Sys, i: nat, c: nat) returns (s': Sys)
    requires SysInv(cfg, s) && Inside(s, i, c) && s.nodes[c].conns[i].snd.done
    ensures Leads(cfg, s, s') && SysInv(cfg, s') && s'.inputs == s.inputs && |s'.nodes| == |s.nodes|
    ensures forall d :: 0 <= d < |s.nodes| && d != c ==> s'.nodes[d] == s.nodes[d]
    ensures ClosedOne(s.nodes[c], s'.nodes[c], i)
  {
    hide SysInv, Leads, ConnInv, NodeInv;
    InsideSizes(cfg, s);
    InvSized(cfg, s);
    InsideInv(cfg, s, i, c);
    PairFacts(PairOf(s, i, c), s.nodes[c].core.acked, s.nodes[c].core.cw, cfg.rings[c]);
    LeadsStep(cfg, s, FinalSent(i, c));
    var s1 := Apply(cfg, s, FinalSent(i, c));
    LeadsStep(cfg, s1, Disconnect(i, c));
    s' := Apply(cfg, s1, Disconnect(i, c));
    LeadsOn(cfg, s, s1, s');
  }

  lemma {:induction false} CloseNode(cfg: Config, s: Sys, c: nat, n: nat) returns (s': Sys)
    requires SysInv(cfg, s) && AllReplied(s) && c < |cfg.rings| && n <= |cfg.sources|
    ensures Leads(cfg, s, s') && SysInv(cfg, s') && s'.inputs == s.inputs && |s'.nodes| == |s.nodes| == |cfg.rings|
    ensures forall d :: 0 <= d < |s.nodes| && d != c ==> s'.nodes[d] == s.nodes[d]
    ensures NodeClosed(s.nodes[c], s'.nodes[c], n)
    decreases n
  {
    hide SysInv, Leads, ConnInv, NodeInv, Sized;
    InsideSizes(cfg, s);
    if n == 0 {
      s' := s;
      InvSized(cfg, s);
      LeadsSelf(cfg, s);
    } else {
      var s1 := CloseNode(cfg, s, c, n - 1);
      InsideSizes(cfg, s1);
      assert Inside(s, n - 1, c) && Inside(s1, n - 1, c);
      s' := CloseAt(cfg, s1, n - 1, c);
      LeadsOn(cfg, s, s1, s');
    }
  }

  lemma {:induction false} CloseAll(cfg: Config, s: Sys, m: nat) returns (s': Sys)
    requires SysInv(cfg, s) && AllReplied(s) && m <= |cfg.rings|
    ensures Leads(cfg, s, s') && SysInv(cfg, s') && s'.inputs == s.inputs && |s'.nodes| == |s.nodes| == |cfg.rings|
    ensures forall c :: 0 <= c < |s.nodes| ==> NodeClosed(s.nodes[c], s'.nodes[c], if c < m then |s.inputs| else 0)
    decreases m
  {
    hide SysInv, Leads, ConnInv, NodeInv, Sized, NodeClosed;
    InsideSizes(cfg, s);
    if m == 0 {
      s' := s;
      InvSized(cfg, s);
      LeadsSelf(cfg, s);
      forall c | 0 <= c < |s.nodes|
        ensures NodeClosed(s.nodes[c], s'.nodes[c], 0)
      {
        NoneClosed(s.nodes[c]);
      }
    } else {
      var s1 := CloseAll(cfg, s, m - 1);
      StillReplied(cfg, s, s1, m - 1);
      s' := CloseNode(cfg, s1, m - 1, |s.inputs|);
      LeadsOn(cfg, s, s1, s');
      NodeClosedOn(s.nodes[m - 1], s1.nodes[m - 1], s'.nodes[m - 1], |s.inputs|);
    }
  }

  lemma NoneClosed(n: Node)
    ensures NodeClosed(n, n, 0)
  {
  }

  lemma NodeClosedOn(a: Node, b: Node, d: Node, n: nat)
    requires NodeClosed(a, b, 0) && NodeClosed(b, d, n)
    ensures NodeClosed(a, d, n)
  {
  }

  lemma StillReplied(cfg: Config, s: Sys, s': Sys, m: nat)
    requires SysInv(cfg, s) && SysInv(cfg, s') && AllReplied(s) && s'.inputs == s.inputs && |s'.nodes| == |s.nodes|
    requires forall c :: 0 <= c < |s.nodes| ==> NodeClosed(s.nodes[c], s'.nodes[c], if c < m then |s.inputs| else 0)
    ensures AllReplied(s')
  {
    hide SysInv;
    InsideSizes(cfg, s);
    forall i: nat, c: nat | Inside(s', i, c)
      ensures s'.nodes[c].conns[i].snd.done
    {
      assert Inside(s, i, c) && NodeClosed(s.nodes[c], s'.nodes[c], if c < m then |s.inputs| else 0);
    }
  }

  /** The connection is finishing and nothing keeps it: it aborts, or everything it sent is
      acknowledged. */
  ghost predicate MayEnd(s: Sys, i: nat, c: nat)
    requires Inside(s, i, c)
  {
    var conn := s.nodes[c].conns[i];
    conn.snd.done || (conn.snd.finalizing && (conn.snd.aborting || s.nodes[c].core.acked == |conn.sent|))
  }

  ghost predicate FinalPosted(s: Sys, i: nat, c: nat)
    requires Inside(s, i, c)
  {
    s.nodes[c].conns[i].snd.done || s.nodes[c].conns[i].snd.sendMsg.final
  }

  lemma TurnedEnds(cfg: Config, s: Sys, s': Sys, i: nat, c: nat)
    requires SysInv(cfg, s) && i < |cfg.sources| && c < |cfg.rings| && Turned(s, s', i, c)
    ensures MayEnd(s, i, c) ==> FinalPosted(s', i, c)
    ensures FinalPosted(s, i, c) ==> s'.nodes[c].conns[i].snd.done
  {
    hide SysInv, ConnInv, NodeInv;
    InsideInv(cfg, s, i, c);
    var p := PairOf(s, i, c);
    PairFacts(p, s.nodes[c].core.acked, s.nodes[c].core.cw, cfg.rings[c]);
    if !p.c.snd.done && s.nodes[c].core.acked == |p.c.sent| {
      assert p.c.snd.cnWp == WpAt(p.c.sent, |p.c.sent|) == p.e.cnAck;
    }
  }

  /** Two more round trips end every connection that nothing keeps. */
  lemma EndAll(cfg: Config, s: Sys) returns (s': Sys)
    requires SysInv(cfg, s)
    requires forall i: nat, c: nat :: Inside(s, i, c) ==> MayEnd(s, i, c)
    ensures Leads(cfg, s, s') && SysInv(cfg, s') && AllDone(s') && InputsSame(s, s') && |s'.nodes| == |s.nodes|
    ensures forall c :: 0 <= c < |s.nodes| ==> s'.nodes[c].core.acked == s.nodes[c].core.acked
  {
    hide SysInv, Leads, ConnInv, NodeInv, Sized, MayEnd;
    var s1 := ReplyAll(cfg, s);
    s' := CloseAll(cfg, s1, |cfg.rings|);
    LeadsOn(cfg, s, s1, s');
    InsideSizes(cfg, s1);
    InsideSizes(cfg, s');
    forall c | 0 <= c < |s1.nodes|
      ensures NodeClosed(s1.nodes[c], s'.nodes[c], |s1.inputs|)
    {
      assert c < |cfg.rings|;
    }
    forall i: nat, c: nat | Inside(s', i, c)
      ensures s'.nodes[c].conns[i].snd.done && s'.nodes[c].core.ends[i].done && i in s'.nodes[c].core.disconnected
    {
      assert Inside(s1, i, c) && NodeClosed(s1.nodes[c], s'.nodes[c], |s1.inputs|);
    }
  }

  lemma ReplyAll(cfg: Config, s: Sys) returns (s': Sys)
    requires SysInv(cfg, s)
    requires forall i: nat, c: nat :: Inside(s, i, c) ==> MayEnd(s, i, c)
    ensures Leads(cfg, s, s') && SysInv(cfg, s') && AllReplied(s') && InputsSame(s, s') && |s'.nodes| == |s.nodes|
    ensures forall c :: 0 <= c < |s.nodes| ==> s'.nodes[c].core.acked == s.nodes[c].core.acked
  {
    hide SysInv, Leads, ConnInv, NodeInv, Cycled, Sized, Turned, MayEnd, FinalPosted;
    var s1 := Pass(cfg, s, |cfg.rings|);
    s' := Pass(cfg, s1, |cfg.rings|);
    LeadsOn(cfg, s, s1, s');
    InsideSizes(cfg, s);
    InsideSizes(cfg, s1);
    InsideSizes(cfg, s');
    forall i: nat, c: nat | Inside(s', i, c)
      ensures s'.nodes[c].conns[i].snd.done
    {
      assert Inside(s, i, c) && Inside(s1, i, c);
      assert Turned(s, s1, i, c) && Turned(s1, s', i, c);
      TurnedEnds(cfg, s, s1, i, c);
      TurnedEnds(cfg, s1, s', i, c);
    }
    forall c | 0 <= c < |s.nodes|
      ensures s'.nodes[c].core.acked == s.nodes[c].core.acked
    {
      assert NodeSame(s.nodes[c], s1.nodes[c]) && NodeSame(s1.nodes[c], s'.nodes[c]);
    }
  }

  // ---- finishing ------------------------------------------------------------------------------------

  /** Input `i` finished; nothing else happened. */
  ghost predicate FinishedOne(s: Sys, s': Sys, i: nat)
  {
    && i < |s.inputs| && s'.inputs == s.inputs[i := s.inputs[i].(finalizing := true)] && |s'.nodes| == |s.nodes|
    && (forall c :: 0 <= c < |s.nodes| ==>
          && i < |s.nodes[c].conns|
          && s'.nodes[c] == WithConn(s.nodes[c], i, FinalizeConn(s.nodes[c].conns[i], s.inputs[i].abort)))
  }

  lemma FinishAt(cfg: Config, s: Sys, i: nat) returns (s': Sys)
    requires SysInv(cfg, s) && i < |cfg.sources| && i < |s.inputs| && !s.inputs[i].finalizing
    requires s.inputs[i].abort || s.inputs[i].timeslice == cfg.maxTimeslices
    requires forall c :: 0 <= c < |cfg.rings| ==> Inside(s, i, c) && NothingOpen(s, i, c)
    ensures Leads(cfg, s, s') && SysInv(cfg, s') && FinishedOne(s, s', i)
  {
    hide SysInv, Leads, ConnInv, NodeInv, InputInv, Linked, First, FinalizeConn;
    InvSized(cfg, s);
    InsideSizes(cfg, s);
    forall c | 0 <= c < |cfg.rings|
      ensures Inside(s, i, c) && s.nodes[c].conns[i].polled == |s.nodes[c].conns[i].sent|
    {
      assert NothingOpen(s, i, c);
    }
    NothingPending(cfg, s, i);
    LeadsStep(cfg, s, Finish(i));
    s' := Apply(cfg, s, Finish(i));
  }

  /** Of the first `n` inputs all that were not finishing began to; nothing else happened. */
  ghost predicate FinishedSome(s: Sys, s': Sys, n: nat)
  {
    && |s'.inputs| == |s.inputs| && |s'.nodes| == |s.nodes|
    && (forall i :: 0 <= i < |s.inputs| ==> s'.inputs[i] == s.inputs[i].(finalizing := s.inputs[i].finalizing || i < n))
    && (forall c :: 0 <= c < |s.nodes| ==> NodeFinished(s.nodes[c], s'.nodes[c], s.inputs, n))
  }

  ghost predicate NodeFinished(a: Node, b: Node, inputs: seq<Input>, n: nat)
  {
    && b.core == a.core && |b.conns| == |a.conns| == |inputs|
    && forall i :: 0 <= i < |a.conns| ==>
         b.conns[i] == if i < n && !inputs[i].finalizing then FinalizeConn(a.conns[i], inputs[i].abort) else a.conns[i]
  }

  lemma {:induction false} FinishSome(cfg: Config, s: Sys, n: nat) returns (s': Sys)
    requires SysInv(cfg, s) && n <= |cfg.sources| == |s.inputs|
    requires forall i :: 0 <= i < n && !s.inputs[i].finalizing ==>
               s.inputs[i].abort || s.inputs[i].timeslice == cfg.maxTimeslices
    requires forall i, c :: 0 <= i < n && 0 <= c < |cfg.rings| && !s.inputs[i].finalizing ==>
               Inside(s, i, c) && NothingOpen(s, i, c)
    ensures Leads(cfg, s, s') && SysInv(cfg, s') && FinishedSome(s, s', n)
    decreases n
  {
    hide SysInv, Leads, ConnInv, NodeInv, Sized, FinalizeConn;
    InsideSizes(cfg, s);
    if n == 0 {
      s' := s;
      InvSized(cfg, s);
      LeadsSelf(cfg, s);
      assert forall c :: 0 <= c < |s.nodes| ==> Inside(s, 0, c) || |s.inputs| == 0;
      FinishedNone(cfg, s);
    } else {
      var k := n - 1;
      var s1 := FinishSome(cfg, s, k);
      if s.inputs[k].finalizing {
        s' := s1;
        FinishedSkip(s, s1, k);
      } else {
        InsideSizes(cfg, s1);
        forall c | 0 <= c < |cfg.rings|
          ensures Inside(s1, k, c) && NothingOpen(s1, k, c)
        {
          assert NodeFinished(s.nodes[c], s1.nodes[c], s.inputs, k);
          assert Inside(s, k, c) && NothingOpen(s, k, c);
        }
        s' := FinishAt(cfg, s1, k);
        LeadsOn(cfg, s, s1, s');
        FinishedNext(s, s1, s', k);
      }
    }
  }

  lemma FinishedNone(cfg: Config, s: Sys)
    requires SysInv(cfg, s)
    ensures FinishedSome(s, s, 0)
  {
    hide InputInv, NodeInv, Linked, FinalizeConn;
  }

  lemma FinishedSkip(s: Sys, s1: Sys, k: nat)
    requires FinishedSome(s, s1, k) && k < |s.inputs| && s.inputs[k].finalizing
    ensures FinishedSome(s, s1, k + 1)
  {
    hide FinalizeConn;
    forall c | 0 <= c < |s.nodes|
      ensures NodeFinished(s.nodes[c], s1.nodes[c], s.inputs, k + 1)
    {
      assert NodeFinished(s.nodes[c], s1.nodes[c], s.inputs, k);
    }
  }

  lemma FinishedNext(s: Sys, s1: Sys, s2: Sys, k: nat)
    requires FinishedSome(s, s1, k) && k < |s.inputs| && !s.inputs[k].finalizing && FinishedOne(s1, s2, k)
    ensures FinishedSome(s, s2, k + 1)
  {
    hide FinalizeConn;
    forall c | 0 <= c < |s.nodes|
      ensures NodeFinished(s.nodes[c], s2.nodes[c], s.inputs, k + 1)
    {
      assert NodeFinished(s.nodes[c], s1.nodes[c], s.inputs, k);
    }
  }

  // ---- sending ---------------------------------------------------------------------------------------

  /** Only input `i` changed, and only in its dealings with its source. */
  ghost predicate SourceOnly(s: Sys, s': Sys, i: nat)
  {
    && s'.nodes == s.nodes && i < |s.inputs| == |s'.inputs| && s'.inputs == s.inputs[i := s'.inputs[i]]
    && var a, b := s.inputs[i], s'.inputs[i];
       && b.timeslice == a.timeslice && b.abort == a.abort && b.finalizing == a.finalizing
       && b.ackedDesc == a.ackedDesc && b.ackedData == a.ackedData && b.done == a.done
  }

  lemma SyncReads(cfg: Config, s: Sys, i: nat)
    requires SysInv(cfg, s) && i < |s.inputs|
    ensures var s' := Apply(cfg, s, SyncRead(i));
            && SourceOnly(s, s', i)
            && s'.inputs[i].readDesc == s'.inputs[i].ackedDesc && s'.inputs[i].readData == s'.inputs[i].ackedData
  {
    hide NodeInv, Linked, First;
  }

  /** The source delivers up to microslice `top`. */
  lemma {:induction false} DeliverTo(cfg: Config, s: Sys, i: nat, top: nat) returns (s': Sys)
    requires SysInv(cfg, s) && i < |s.inputs| && i < |cfg.sources|
    requires var inp, src := s.inputs[i], cfg.sources[i];
             && top <= inp.readDesc + src.DescSize() && src.startDesc <= top
             && src.EndAt(top) <= inp.readData + src.DataSize()
    ensures Leads(cfg, s, s') && SysInv(cfg, s') && SourceOnly(s, s', i) && s'.inputs[i].written >= top
    decreases top - s.inputs[i].written
  {
    hide SysInv, Leads, NodeInv, Linked, ConnInv, Apply, Sized;
    if s.inputs[i].written >= top {
      s' := s;
      InvSized(cfg, s);
      LeadsSelf(cfg, s);
      SourceSelf(s, i);
    } else {
      InvSized(cfg, s);
      LeadsStep(cfg, s, Deliver(i));
      Delivers(cfg, s, i, top);
      var s1 := Apply(cfg, s, Deliver(i));
      s' := DeliverTo(cfg, s1, i, top);
      LeadsOn(cfg, s, s1, s');
      SourceOn(s, s1, s', i);
    }
  }

  lemma SourceSelf(s: Sys, i: nat)
    requires i < |s.inputs|
    ensures SourceOnly(s, s, i)
  {
  }

  lemma SourceOn(s: Sys, s1: Sys, s2: Sys, i: nat)
    requires SourceOnly(s, s1, i) && SourceOnly(s1, s2, i)
    ensures SourceOnly(s, s2, i)
  {
  }

  lemma Delivers(cfg: Config, s: Sys, i: nat, top: nat)
    requires SysInv(cfg, s) && i < |s.inputs| && i < |cfg.sources| && s.inputs[i].written < top
    requires var inp, src := s.inputs[i], cfg.sources[i];
             && top <= inp.readDesc + src.DescSize() && src.startDesc <= top
             && src.EndAt(top) <= inp.readData + src.DataSize()
    ensures var s' := Apply(cfg, s, Deliver(i));
            && SourceOnly(s, s', i) && s'.inputs[i].written == s.inputs[i].written + 1
            && s'.inputs[i].readDesc == s.inputs[i].readDesc && s'.inputs[i].readData == s.inputs[i].readData
  {
    hide SysInv, NodeInv, Linked, First, TsOf;
    InvSized(cfg, s);
    InvInput(cfg, s, i);
    EndMonotone(cfg.sources[i], s.inputs[i].written + 1, top);
  }

  /** Who has sent fewer timeslices has sent no more to any compute node. */
  lemma SentMonotone(cfg: Config, s: Sys, i: nat, j: nat, c: nat)
    requires SysInv(cfg, s) && Inside(s, i, c) && Inside(s, j, c) && s.inputs[i].timeslice <= s.inputs[j].timeslice
    ensures |s.nodes[c].conns[i].sent| <= |s.nodes[c].conns[j].sent|
  {
    hide NodeInv, InputInv, Carries, TsAt, AckedTs;
    InsideSizes(cfg, s);
    var n := |s.nodes|;
    assert Linked(s.inputs[i], s.nodes[c].conns[i], cfg.sources[i], cfg.sl, c, n);
    assert Linked(s.inputs[j], s.nodes[c].conns[j], cfg.sources[j], cfg.sl, c, n);
    var a, b := |s.nodes[c].conns[i].sent|, |s.nodes[c].conns[j].sent|;
    assert b < a <==> TsAt(b, c, n) < s.inputs[i].timeslice;
    assert !(TsAt(b, c, n) < s.inputs[j].timeslice);
  }

  /** In a settled state the input that is furthest behind has nothing unacknowledged at its
      next target. */
  lemma SlowestDrained(cfg: Config, s: Sys, i: nat)
    requires SysInv(cfg, s) && Settled(s) && i < |s.inputs|
    requires forall j :: 0 <= j < |s.inputs| ==> s.inputs[i].timeslice <= s.inputs[j].timeslice
    ensures forall c :: 0 <= c < |s.nodes| ==>
              Inside(s, i, c) && s.nodes[c].conns[i].snd.cnAck == s.nodes[c].conns[i].snd.cnWp
  {
    hide SysInv, ConnInv, NodeInv;
    InsideSizes(cfg, s);
    forall c | 0 <= c < |s.nodes|
      ensures Inside(s, i, c) && s.nodes[c].conns[i].snd.cnAck == s.nodes[c].conns[i].snd.cnWp
    {
      assert Knows(s, i, c) && Lowest(s, c);
      var j: nat :| Inside(s, j, c) && s.nodes[c].core.acked == |s.nodes[c].conns[j].sent|;
      SentMonotone(cfg, s, i, j, c);
      InsideInv(cfg, s, i, c);
      PairFacts(PairOf(s, i, c), s.nodes[c].core.acked, s.nodes[c].core.cw, cfg.rings[c]);
    }
  }

  /** Input `i` sent one more timeslice. */
  ghost predicate SentOne(s: Sys, s': Sys, i: nat)
  {
    && i < |s.inputs| == |s'.inputs|
    && (forall j :: 0 <= j < |s.inputs| && j != i ==> s'.inputs[j] == s.inputs[j])
    && s'.inputs[i].timeslice == s.inputs[i].timeslice + 1 && s'.inputs[i].finalizing == s.inputs[i].finalizing
  }

  /** An input that can cut out its next timeslice and has room for it sends it. */
  lemma SendsInto(cfg: Config, s: Sys, i: nat)
    requires SysInv(cfg, s) && i < |s.inputs| && i < |cfg.sources|
    requires var inp := s.inputs[i];
             && inp.timeslice < cfg.maxTimeslices && !inp.abort && !inp.finalizing
             && Available(inp, cfg.sources[i], cfg.sl) && cfg.Valid()
    requires var c := TargetNode(cfg, s.inputs[i].timeslice);
             && Inside(s, i, c) && !s.nodes[c].conns[i].snd.finalizing
             && CanSend(s.nodes[c].conns[i].snd, cfg.rings[c], cfg.maxPending,
                        |Payload(cfg.sources[i], cfg.sl, s.inputs[i].timeslice)|)
    ensures SentOne(s, Apply(cfg, s, SendNext(i)), i)
  {
    hide SysInv, NodeInv, InputInv, Linked, ConnInv, Gather, Payload, CanSend, First, Available, Pow2;
    InvSized(cfg, s);
    InsideSizes(cfg, s);
    InvInput(cfg, s, i);
    var inp, src := s.inputs[i], cfg.sources[i];
    AvailableInRings(inp, src, cfg.sl);
    GatherIsPayload(src, cfg.sl, inp.written, inp.timeslice);
  }

  lemma SendsNext(cfg: Config, s: Sys, i: nat)
    requires SysInv(cfg, s) && i < |s.inputs| && i < |cfg.sources|
    requires var inp := s.inputs[i];
             && inp.timeslice < cfg.maxTimeslices && !inp.abort && !inp.finalizing
             && Available(inp, cfg.sources[i], cfg.sl) && cfg.Valid() && RoomFor(cfg, i, inp.timeslice)
    requires var c := TargetNode(cfg, s.inputs[i].timeslice);
             && Inside(s, i, c) && NothingOpen(s, i, c)
             && !s.nodes[c].conns[i].snd.finalizing && s.nodes[c].conns[i].snd.cnAck == s.nodes[c].conns[i].snd.cnWp
             && PlaceOf(cfg, i, c, s.nodes[c].conns[i])
    ensures SentOne(s, Apply(cfg, s, SendNext(i)), i)
  {
    hide SysInv, Payload, CanSend, Available, Pow2, Place, DrainedFits, SentOne, Apply;
    InsideSizes(cfg, s);
    var c := TargetNode(cfg, s.inputs[i].timeslice);
    DrainedSendExactly(s.nodes[c].conns[i].snd, cfg.rings[c], cfg.maxPending,
                       |Payload(cfg.sources[i], cfg.sl, s.inputs[i].timeslice)|);
    PositionOf(cfg, s, i, c);
    SendsInto(cfg, s, i);
  }

  /** The number of components sent is the position of the next timeslice. */
  lemma PositionOf(cfg: Config, s: Sys, i: nat, c: nat)
    requires SysInv(cfg, s) && Inside(s, i, c) && cfg.Valid() && |s.nodes| == |cfg.rings|
    requires c == TargetNode(cfg, s.inputs[i].timeslice)
    ensures |s.nodes[c].conns[i].sent| == s.inputs[i].timeslice / |cfg.rings|
  {
    hide SysInv;
    NextTs(cfg, s, i, c);
    RemainderUnique(s.inputs[i].timeslice, |cfg.rings|, |s.nodes[c].conns[i].sent|, c);
  }

  lemma SlowestInput(inputs: seq<Input>) returns (i: nat)
    requires |inputs| > 0
    ensures i < |inputs| && forall j :: 0 <= j < |inputs| ==> inputs[i].timeslice <= inputs[j].timeslice
    decreases |inputs|
  {
    if |inputs| == 1 {
      i := 0;
    } else {
      var k := |inputs| - 1;
      i := SlowestInput(inputs[..k]);
      assert forall j :: 0 <= j < k ==> inputs[..k][j] == inputs[j];
      if inputs[k].timeslice < inputs[i].timeslice {
        i := k;
      }
    }
  }

  /** Once all its writes are seen to complete, an input can have its next timeslice delivered. */
  lemma CutNext(cfg: Config, s: Sys, i: nat) returns (s': Sys)
    requires SysInv(cfg, s) && i < |s.inputs| && i < |cfg.sources| && cfg.Valid()
    requires RoomFor(cfg, i, s.inputs[i].timeslice)
    requires forall c :: 0 <= c < |cfg.rings| ==> Inside(s, i, c) && NothingOpen(s, i, c)
    ensures Leads(cfg, s, s') && SysInv(cfg, s') && SourceOnly(s, s', i)
    ensures Available(s'.inputs[i], cfg.sources[i], cfg.sl)
  {
    hide SysInv, Leads, Apply, First, RoomFor, Sized;
    InvSized(cfg, s);
    forall c | 0 <= c < |cfg.rings|
      ensures Inside(s, i, c) && s.nodes[c].conns[i].polled == |s.nodes[c].conns[i].sent|
    {
      assert NothingOpen(s, i, c);
    }
    NothingPending(cfg, s, i);
    LeadsStep(cfg, s, SyncRead(i));
    SyncReads(cfg, s, i);
    var s1 := Apply(cfg, s, SyncRead(i));
    RoomToDeliver(cfg, s1, i);
    s' := DeliverTo(cfg, s1, i, First(cfg.sources[i], cfg.sl, s.inputs[i].timeslice) + cfg.sl.Length());
    SourceOn(s, s1, s', i);
    LeadsOn(cfg, s, s1, s');
  }

  /** From a settled state the input that is furthest behind can send its next timeslice. */
  lemma SendSlowest(cfg: Config, s: Sys, i: nat) returns (s': Sys)
    requires SysInv(cfg, s) && Flags(cfg, s) && Unasked(s) && Settled(s) && cfg.Valid() && Roomy(cfg)
    requires i < |s.inputs| && s.inputs[i].timeslice < cfg.maxTimeslices
    requires forall j :: 0 <= j < |s.inputs| ==> s.inputs[i].timeslice <= s.inputs[j].timeslice
    ensures Leads(cfg, s, s') && SysInv(cfg, s') && SentOne(s, s', i)
  {
    hide SysInv, Leads, NodeInv, InputInv, Linked, ConnInv, Apply, First, RoomFor, Payload, InPlace;
    InsideSizes(cfg, s);
    var t := s.inputs[i].timeslice;
    var c := TargetNode(cfg, t);
    SlowestDrained(cfg, s, i);
    assert Knows(s, i, c) && NothingOpen(s, i, c);
    assert PlaceOf(cfg, i, c, s.nodes[c].conns[i]);
    StillSending(cfg, s, i, c);
    forall d | 0 <= d < |cfg.rings|
      ensures Inside(s, i, d) && NothingOpen(s, i, d)
    {
      assert Knows(s, i, d);
    }
    assert RoomFor(cfg, i, t);
    var s1 := CutNext(cfg, s, i);
    SendsNext(cfg, s1, i);
    LeadsStep(cfg, s1, SendNext(i));
    s' := Apply(cfg, s1, SendNext(i));
    LeadsOn(cfg, s, s1, s');
  }

  lemma StillSending(cfg: Config, s: Sys, i: nat, c: nat)
    requires Flags(cfg, s) && Unasked(s) && Inside(s, i, c) && s.inputs[i].timeslice < cfg.maxTimeslices
    ensures !s.inputs[i].abort && !s.inputs[i].finalizing && !s.nodes[c].conns[i].snd.finalizing
  {
    assert FlagsOf(cfg, s.inputs[i], s.nodes[c].conns[i].snd);
    assert !PairOf(s, i, c).asked;
  }

  lemma RoomToDeliver(cfg: Config, s: Sys, i: nat)
    requires SysInv(cfg, s) && i < |s.inputs| && i < |cfg.sources| && cfg.Valid()
    requires RoomFor(cfg, i, s.inputs[i].timeslice)
    requires s.inputs[i].ackedDesc == First(cfg.sources[i], cfg.sl, s.inputs[i].timeslice)
    requires s.inputs[i].readDesc == s.inputs[i].ackedDesc && s.inputs[i].readData == s.inputs[i].ackedData
    ensures var inp, src := s.inputs[i], cfg.sources[i];
            var top := First(src, cfg.sl, inp.timeslice) + cfg.sl.Length();
            && top <= inp.readDesc + src.DescSize() && src.startDesc <= top
            && src.EndAt(top) <= inp.readData + src.DataSize()
  {
    hide SysInv, NodeInv, Linked, First, TsOf, Payload, Pow2, Place;
    InvInput(cfg, s, i);
  }

  // ---- the end of a run without aborts --------------------------------------------------------------

  /** How many timeslices are still to be sent. */
  ghost function Remaining(inputs: seq<Input>, top: nat): (n: nat)
  {
    if |inputs| == 0 then 0
    else (if inputs[0].timeslice < top then top - inputs[0].timeslice else 0) + Remaining(inputs[1..], top)
  }

  lemma {:induction false} RemainingSame(a: seq<Input>, b: seq<Input>, top: nat)
    requires |a| == |b| && forall i :: 0 <= i < |a| ==> a[i].timeslice == b[i].timeslice
    ensures Remaining(a, top) == Remaining(b, top)
  {
    if |a| > 0 {
      RemainingSame(a[1..], b[1..], top);
    }
  }

  lemma {:induction false} RemainingDrops(a: seq<Input>, b: seq<Input>, i: nat, top: nat)
    requires i < |a| == |b| && a[i].timeslice < top && b[i].timeslice == a[i].timeslice + 1
    requires forall j :: 0 <= j < |a| && j != i ==> b[j] == a[j]
    ensures Remaining(b, top) < Remaining(a, top)
    decreases |a|
  {
    if i == 0 {
      RemainingSame(a[1..], b[1..], top);
    } else {
      RemainingDrops(a[1..], b[1..], i - 1, top);
    }
  }

  ghost predicate AllSent(cfg: Config, s: Sys)
  {
    forall i :: 0 <= i < |s.inputs| ==> s.inputs[i].timeslice == cfg.maxTimeslices
  }

  lemma {:induction false} SendEverything(cfg: Config, s: Sys) returns (s': Sys)
    requires SysInv(cfg, s) && Flags(cfg, s) && Unasked(s) && cfg.Valid() && Roomy(cfg)
    ensures Leads(cfg, s, s') && SysInv(cfg, s') && Flags(cfg, s') && Unasked(s') && Settled(s') && AllSent(cfg, s')
    decreases Remaining(s.inputs, cfg.maxTimeslices)
  {
    hide SysInv, Leads, NodeInv, ConnInv, Sized, Settled, Unasked, Roomy, FlagsOf;
    var s1 := Settle(cfg, s);
    InsideSizes(cfg, s1);
    InvSized(cfg, s1);
    RemainingSame(s.inputs, s1.inputs, cfg.maxTimeslices);
    var i := SlowestInput(s1.inputs);
    if s1.inputs[i].timeslice < cfg.maxTimeslices {
      var s2 := SendSlowest(cfg, s1, i);
      LeadsKeeps(cfg, s1, s2);
      RemainingDrops(s1.inputs, s2.inputs, i, cfg.maxTimeslices);
      s' := SendEverything(cfg, s2);
      LeadsOn(cfg, s, s1, s2);
      LeadsOn(cfg, s, s2, s');
    } else {
      s' := s1;
    }
  }

  /** When everything is sent and settled, everything is acknowledged. */
  lemma AllAcked(cfg: Config, s: Sys, i: nat, c: nat)
    requires SysInv(cfg, s) && Settled(s) && AllSent(cfg, s) && Inside(s, i, c)
    ensures s.nodes[c].core.acked == |s.nodes[c].conns[i].sent|
  {
    hide SysInv;
    assert Lowest(s, c);
    var j: nat :| Inside(s, j, c) && s.nodes[c].core.acked == |s.nodes[c].conns[j].sent|;
    SentMonotone(cfg, s, i, j, c);
    SentMonotone(cfg, s, j, i, c);
  }

  /** Everything was sent, acknowledged and worked on, and every connection is done. */
  ghost predicate Complete(cfg: Config, s: Sys)
  {
    && AllDone(s) && AllSent(cfg, s)
    && forall c :: 0 <= c < |s.nodes| ==> s.nodes[c].core.outstanding == {}
  }

  lemma FinishedMayEnd(cfg: Config, s: Sys, s': Sys)
    requires SysInv(cfg, s) && Settled(s) && AllSent(cfg, s) && Flags(cfg, s')
    requires FinishedSome(s, s', |s.inputs|)
    ensures forall i: nat, c: nat :: Inside(s', i, c) ==> MayEnd(s', i, c)
  {
    hide SysInv, Settled;
    InsideSizes(cfg, s);
    forall i: nat, c: nat | Inside(s', i, c)
      ensures MayEnd(s', i, c)
    {
      assert NodeFinished(s.nodes[c], s'.nodes[c], s.inputs, |s.inputs|);
      assert Inside(s, i, c);
      AllAcked(cfg, s, i, c);
      assert FlagsOf(cfg, s'.inputs[i], s'.nodes[c].conns[i].snd);
    }
  }

  lemma DoneMeansNoWork(cfg: Config, s: Sys, c: nat)
    requires SysInv(cfg, s) && AllDone(s) && NoneAborts(s) && c < |cfg.rings| && c < |s.nodes|
    ensures s.nodes[c].core.outstanding == {}
  {
    hide SysInv, ConnInv, NodeInv;
    InsideSizes(cfg, s);
    InvSized(cfg, s);
    InsideInv(cfg, s, 0, c);
    PairFacts(PairOf(s, 0, c), s.nodes[c].core.acked, s.nodes[c].core.cw, cfg.rings[c]);
    FinalizeFindsNoWork(s.nodes[c], 0, cfg.rings[c]);
  }

  lemma CompleteFrom(cfg: Config, s: Sys) returns (s': Sys)
    requires SysInv(cfg, s) && Flags(cfg, s) && Unasked(s) && cfg.Valid() && Roomy(cfg)
    ensures Leads(cfg, s, s') && Complete(cfg, s')
  {
    hide SysInv, Leads, NodeInv, ConnInv, Sized, Unasked, Roomy, Settled, MayEnd, Flags;
    var s1 := SendEverything(cfg, s);
    InsideSizes(cfg, s1);
    forall i, c | 0 <= i < |s1.inputs| && 0 <= c < |cfg.rings|
      ensures Inside(s1, i, c) && NothingOpen(s1, i, c)
    {
      SettledOpen(s1, i, c);
    }
    var s2 := FinishSome(cfg, s1, |s1.inputs|);
    LeadsKeeps(cfg, s1, s2);
    FinishedMayEnd(cfg, s1, s2);
    s' := EndAll(cfg, s2);
    LeadsKeeps(cfg, s2, s');
    UnaskedNoneAborts(cfg, s');
    InsideSizes(cfg, s');
    forall c | 0 <= c < |s'.nodes|
      ensures s'.nodes[c].core.outstanding == {}
    {
      DoneMeansNoWork(cfg, s', c);
    }
    LeadsOn(cfg, s, s1, s2);
    LeadsOn(cfg, s, s2, s');
  }

  lemma SettledOpen(s: Sys, i: nat, c: nat)
    requires Settled(s) && i < |s.inputs| && c < |s.nodes|
    ensures Inside(s, i, c) && NothingOpen(s, i, c)
  {
    assert Knows(s, i, c);
  }

  /** From every state of every run in which nobody has asked for an abort, some continuation
      sends, works on and acknowledges all timeslices and ends every connection. */
  lemma CanComplete(cfg: Config, s0: Sys, steps: seq<Step>) returns (s': Sys)
    requires cfg.Valid() && Roomy(cfg) && Init(cfg, s0) && Calm(steps)
    ensures Leads(cfg, Run(cfg, s0, steps), s') && Complete(cfg, s')
  {
    hide SysInv, Leads, Flags, Unasked, Roomy, Complete, Apply, Run;
    InitInv(cfg, s0);
    InitFlags(cfg, s0);
    RunKeepsAll(cfg, s0, steps);
    s' := CompleteFrom(cfg, Run(cfg, s0, steps));
  }
}
