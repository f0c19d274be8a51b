/** The reorder ring shared by the timeslice builder, the input channel sender and the managed
    timeslice buffer: completions arrive in any order, one index advances through them.

    The abstract state is the index `acked` and the set `done` of completions above it. */
module Reorder {
  import opened RingMath

  /** The least position at or above `from` that is not in `done`. */
  ghost function FirstOpen(from: nat, done: set<nat>): (r: nat)
    ensures r >= from && r !in done
    ensures forall p :: from <= p < r ==> p in done
    decreases |done|
  {
    if from in done then
      var rest := done - {from};
      var r := FirstOpen(from + 1, rest);
      assert forall p :: from <= p < r ==> p in done by {
        forall p | from <= p < r ensures p in done {
          if p != from { assert p in rest; }
        }
      }
      assert r != from;
      r
    else
      from
  }

  ghost function Above(done: set<nat>, from: nat): (r: set<nat>)
  {
    set p | p in done && p > from
  }

  /** What one completion does to the abstract state. */
  ghost function CompleteAcked(acked: nat, done: set<nat>, pos: nat): (r: nat)
    ensures r >= acked
  {
    if pos == acked then FirstOpen(acked + 1, done) else acked
  }

  ghost function CompleteDone(acked: nat, done: set<nat>, pos: nat): (r: set<nat>)
  {
    if pos == acked then Above(done, CompleteAcked(acked, done, pos)) else done + {pos}
  }

  /** Completions already recorded above the index. */
  ghost predicate InWindow(acked: nat, done: set<nat>, size: nat)
  {
    forall p :: p in done ==> acked < p < acked + size
  }

  /** The slots of one full turn after `acked` tell exactly which positions are done:
      a fresh slot holds its own position, a stale one holds nothing above `acked`. */
  ghost predicate Represents(ring: seq<nat>, acked: nat, done: set<nat>)
  {
    && |ring| > 0
    && InWindow(acked, done, |ring|)
    && forall r {:trigger r in done} {:trigger ring[r % |ring|]} :: acked < r <= acked + |ring| ==>
         if r in done then ring[r % |ring|] == r else ring[r % |ring|] <= acked
  }

  /** The set of recorded completions can be read off the ring. */
  ghost function DoneOf(ring: seq<nat>, acked: nat): (r: set<nat>)
    requires |ring| > 0
  {
    set p: nat | acked < p < acked + |ring| && ring[p % |ring|] == p
  }

  lemma DoneOfUnique(ring: seq<nat>, acked: nat, done: set<nat>)
    requires Represents(ring, acked, done)
    ensures DoneOf(ring, acked) == done
  {
    forall p: nat
      ensures p in DoneOf(ring, acked) <==> p in done
    {
      if acked < p < acked + |ring| {
        assert p in done || ring[p % |ring|] <= acked;
      }
    }
  }

  /** What a slot says about the position it stands for. */
  lemma ReadSlot(ring: seq<nat>, acked: nat, done: set<nat>, r: nat)
    requires Represents(ring, acked, done)
    requires acked < r <= acked + |ring|
    ensures ring[r % |ring|] > acked <==> r in done
    ensures r in done ==> r < acked + |ring|
  {
    assert r in done || ring[r % |ring|] <= acked;
  }

  /** A cleared ring represents the initial state. */
  lemma ClearedRepresents(ring: seq<nat>, acked: nat)
    requires |ring| > 0
    requires forall k :: 0 <= k < |ring| ==> ring[k] == 0
    ensures Represents(ring, acked, {})
  {
  }

  lemma RecordKeeps(ring: seq<nat>, acked: nat, done: set<nat>, pos: nat)
    requires Represents(ring, acked, done)
    requires acked < pos < acked + |ring|
    ensures Represents(ring[pos % |ring| := pos], acked, done + {pos})
  {
    var size := |ring|;
    var ring' := ring[pos % size := pos];
    var done' := done + {pos};
    forall r | acked < r <= acked + size
      ensures if r in done' then ring'[r % size] == r else ring'[r % size] <= acked
    {
      assert r in done || r !in done;
      if r != pos && r % size == pos % size {
        SlotsDistinct(r, pos, size);
      }
    }
  }

  lemma AdvanceKeeps(ring: seq<nat>, acked: nat, done: set<nat>, next: nat)
    requires Represents(ring, acked, done)
    requires acked < next <= acked + |ring|
    requires next !in done && forall p :: acked < p < next ==> p in done
    ensures Represents(ring, next, Above(done, next))
  {
    var size := |ring|;
    forall r | next < r <= next + size
      ensures if r in Above(done, next) then ring[r % size] == r else ring[r % size] <= next
    {
      assert r in done || r !in done;
      if r > acked + size {
        SlotPeriodic(r - size, size);
        assert r - size in done || r - size == next;
        assert ring[(r - size) % size] <= next;
      }
    }
  }

  /** One completion event, run in place on the ring.  The loop is the source's
      do-while: it compares each slot with the completed position itself. */
  method Complete(ring: array<nat>, acked: nat, pos: nat, ghost done: set<nat>) returns (acked': nat)
    requires Represents(ring[..], acked, done)
    requires acked <= pos < acked + ring.Length && pos !in done
    modifies ring
    ensures acked' == CompleteAcked(acked, done, pos)
    ensures Represents(ring[..], acked', CompleteDone(acked, done, pos))
  {
    var size := ring.Length;
    ghost var was := ring[..];
    if pos == acked {
      acked' := acked + 1;
      while ring[acked' % size] > pos
        invariant acked < acked' <= acked + size
        invariant ring[..] == was
        invariant forall p :: acked < p < acked' ==> p in done
        decreases acked + size - acked'
      {
        ReadSlot(was, acked, done, acked');
        acked' := acked' + 1;
      }
      ReadSlot(was, acked, done, acked');
      AdvanceKeeps(was, acked, done, acked');
      var fo := FirstOpen(acked + 1, done);
      assert fo == acked';
    } else {
      ring[pos % size] := pos;
      assert ring[..] == was[pos % size := pos];
      RecordKeeps(was, acked, done, pos);
      acked' := acked;
    }
  }

  /** All positions completed so far: those before the index and those recorded above it. */
  ghost function Completed(acked: nat, done: set<nat>): (r: iset<nat>)
  {
    iset p: nat | p < acked || p in done
  }

  /** The reorder state forgets nothing and invents nothing: after any completion the
      completed positions are the old ones plus the new one, and `acked` is the least
      position not among them. */
  lemma CompleteRefinesSet(acked: nat, done: set<nat>, pos: nat)
    requires acked !in done && forall p :: p in done ==> p > acked
    requires pos >= acked && pos !in done
    ensures var acked', done' := CompleteAcked(acked, done, pos), CompleteDone(acked, done, pos);
            && Completed(acked', done') == Completed(acked, done) + iset{pos}
            && acked' !in Completed(acked', done')
            && (forall p: nat :: p < acked' ==> p in Completed(acked, done) + iset{pos})
            && (forall p :: p in done' ==> p > acked')
  {
    var acked', done' := CompleteAcked(acked, done, pos), CompleteDone(acked, done, pos);
    forall p: nat
      ensures p in Completed(acked', done') <==> p in Completed(acked, done) || p == pos
    {
      if pos == acked && acked < p < acked' {
        assert p in done;
      }
    }
  }
}
