/** The room a configuration leaves for its timeslices.  Where a component goes in the remote
    data ring depends on nothing but the sizes of those before it. */
module Room {
  import opened RingMath
  import opened Wire
  import opened InputChannelConnection
  import opened InputChannelSender
  import opened System

  /** Input `i` and compute node `c` exist. */
  predicate InConfig(cfg: Config, i: nat, c: nat)
  {
    i < |cfg.sources| && c < |cfg.rings| && cfg.sl.size > 0
  }

  /** The size of what input `i` sends at position `p` of compute node `c`. */
  function SizeAt(cfg: Config, i: nat, c: nat, p: nat): (n: nat)
    requires InConfig(cfg, i, c)
  {
    |Payload(cfg.sources[i], cfg.sl, TsAt(p, c, |cfg.rings|))|
  }

  /** The data write pointer of input `i` at compute node `c` after `p` components: each follows
      the one before it, after the skip over the end of the ring if it would wrap. */
  function Place(cfg: Config, i: nat, c: nat, p: nat): (w: nat)
    requires InConfig(cfg, i, c)
    decreases p
  {
    if p == 0 then 0
    else
      var w, n := Place(cfg, i, c, p - 1), SizeAt(cfg, i, c, p - 1);
      w + n + SkipFrom(w, cfg.rings[c], n)
  }

  lemma {:induction false} PlaceMonotone(cfg: Config, i: nat, c: nat, p: nat, q: nat)
    requires InConfig(cfg, i, c) && p <= q
    ensures Place(cfg, i, c, p) <= Place(cfg, i, c, q)
    decreases q
  {
    hide SizeAt, SkipFrom;
    if p < q {
      PlaceMonotone(cfg, i, c, p, q - 1);
    }
  }

  /** The write pointer is where the sizes put it. */
  ghost predicate InPlace(cfg: Config, i: nat, c: nat, cnWp: Position, sent: nat)
  {
    InConfig(cfg, i, c) ==> cnWp.data == Place(cfg, i, c, sent)
  }

  /** A timeslice can be cut out of its source's rings. */
  ghost predicate SourceRoom(cfg: Config, i: nat, t: nat)
    requires i < |cfg.sources|
  {
    var src, first := cfg.sources[i], First(cfg.sources[i], cfg.sl, t);
    cfg.sl.Length() <= src.DescSize() && src.EndAt(first + cfg.sl.Length()) <= src.EndAt(first) + src.DataSize()
  }

  /** A timeslice has room in its source's rings and, behind or before the place where it comes
      to lie, in the remote data ring. */
  ghost predicate RoomFor(cfg: Config, i: nat, t: nat)
    requires cfg.Valid() && i < |cfg.sources|
  {
    var c, n := TargetNode(cfg, t), |cfg.rings|;
    && cfg.maxPending > 0 && SourceRoom(cfg, i, t)
    && DrainedFits(cfg.rings[c].DataSize(), Place(cfg, i, c, t / n), |Payload(cfg.sources[i], cfg.sl, t)|)
  }

  /** Every timeslice has room. */
  ghost predicate Roomy(cfg: Config)
    requires cfg.Valid()
  {
    forall i, t: nat :: 0 <= i < |cfg.sources| && t < cfg.maxTimeslices ==> RoomFor(cfg, i, t)
  }

  /** Half a ring is always room enough. */
  lemma HalfIsRoom(cfg: Config, i: nat, t: nat)
    requires cfg.Valid() && i < |cfg.sources| && cfg.maxPending > 0 && SourceRoom(cfg, i, t)
    requires 2 * |Payload(cfg.sources[i], cfg.sl, t)| <= cfg.rings[TargetNode(cfg, t)].DataSize()
    ensures RoomFor(cfg, i, t)
  {
    hide Place, Payload;
  }
}
