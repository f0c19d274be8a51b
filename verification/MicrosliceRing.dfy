/** The transmitter and the receiver of microslices, two processes around one shared ring
    buffer.  Each side keeps a stale copy of the other's index and refreshes it on demand. */
module MicrosliceRing {
  import opened RingMath
  import opened Wire
  import opened ManagedRingBuffer

  datatype Dual = Dual(desc: nat, data: nat)

  datatype Entry = Entry(info: nat, offset: nat, size: nat)

  datatype Microslice = Microslice(info: nat, content: seq<Byte>)

  /** What both processes see.  `behind` is the memory that follows the data ring. */
  datatype Shared = Shared(desc: seq<Entry>, data: seq<Byte>, behind: seq<Byte>, write: Dual, read: Dual) {
    predicate Valid() { 0 < |desc| && 0 < |data| == |behind| }
  }

  datatype Tx = Tx(write: Dual, cached: Dual)

  datatype Rx = Rx(cachedWrite: nat, readDesc: nat)

  // ---- the transmitter -------------------------------------------------------------------

  /** Both components have to be large enough. */
  predicate Available(sh: Shared, tx: Tx, item: Microslice)
  {
    && |sh.desc| - tx.write.desc + tx.cached.desc >= 1
    && |sh.data| - tx.write.data + tx.cached.data >= |item.content|
  }

  /** The pointer test of the copies takes a full turn for no turn: `size` bytes from `offset`
      on are then one segment that runs past the end of the ring. */
  predicate FullTurn(size: nat, offset: nat, ring: nat)
    requires ring > 0
  {
    size == ring && offset % ring != 0
  }

  /** Where byte `k` of `size` bytes from `offset` on lies: around the border, or, for a full
      turn, past the end of the ring. */
  function Cell(offset: nat, k: nat, size: nat, ring: nat): (j: nat)
    requires k < size <= ring
    ensures j < 2 * ring
  {
    if FullTurn(size, offset, ring) then offset % ring + k else (offset + k) % ring
  }

  function Load(sh: Shared, j: nat): (b: Byte)
    requires sh.Valid() && j < 2 * |sh.data|
  {
    if j < |sh.data| then sh.data[j] else sh.behind[j - |sh.data|]
  }

  function Stored(sh: Shared, j: nat, b: Byte): (sh': Shared)
    requires sh.Valid() && j < 2 * |sh.data|
    ensures sh'.Valid() && sh' == sh.(data := sh'.data, behind := sh'.behind) && |sh'.data| == |sh.data|
    ensures forall i: nat :: i < 2 * |sh.data| ==> Load(sh', i) == if i == j then b else Load(sh, i)
  {
    if j < |sh.data| then sh.(data := sh.data[j := b]) else sh.(behind := sh.behind[j - |sh.data| := b])
  }

  /** The first `k` of `size` bytes from `offset` on. */
  function Stretch(sh: Shared, offset: nat, size: nat, k: nat): (r: seq<Byte>)
    requires sh.Valid() && k <= size <= |sh.data|
    ensures |r| == k
  {
    seq(k, i requires 0 <= i < k => Load(sh, Cell(offset, i, size, |sh.data|)))
  }

  /** The read index is refreshed only if the cached one does not leave enough room. */
  function Refreshed(sh: Shared, tx: Tx, item: Microslice): (tx': Tx)
  {
    if Available(sh, tx, item) then tx else tx.(cached := sh.read)
  }

  /** The read index, cached or not, does not lie ahead of the write index. */
  predicate InOrder(sh: Shared, tx: Tx)
  {
    tx.cached.data <= tx.write.data && sh.read.data <= tx.write.data
  }

  /** The memory after the copy: written around the border, or past the end. */
  function Filled(sh: Shared, tx: Tx, item: Microslice): (sh': Shared)
    requires sh.Valid() && |item.content| <= |sh.data|
  {
    var w, N, at := tx.write.data, |sh.data|, tx.write.data % |sh.data|;
    var desc := sh.desc[tx.write.desc % |sh.desc| := Entry(item.info, w, |item.content|)];
    if FullTurn(|item.content|, w, N) then
      sh.(desc := desc, data := sh.data[..at] + item.content[..N - at],
          behind := item.content[N - at..] + sh.behind[at..])
    else
      sh.(desc := desc, data := Written(sh.data, w, item.content))
  }

  function Next(tx: Tx, item: Microslice): (tx': Tx)
  {
    tx.(write := Dual(tx.write.desc + 1, tx.write.data + |item.content|))
  }

  function TryPut(sh: Shared, tx: Tx, item: Microslice): (r: (Shared, Tx, bool))
    requires sh.Valid() && InOrder(sh, tx)
  {
    var tx1 := Refreshed(sh, tx, item);
    if !Available(sh, tx1, item) then (sh, tx1, false)
    else
      var tx2 := Next(tx1, item);
      (Filled(sh, tx1, item).(write := tx2.write), tx2, true)
  }

  /** A put leaves the memory behind the ring alone, whatever the content, exactly when it is
      not a full turn. */
  lemma OverrunExactly(sh: Shared, tx: Tx, info: nat, size: nat)
    requires sh.Valid() && size <= |sh.data|
    ensures (forall c: seq<Byte> :: |c| == size ==> Filled(sh, tx, Microslice(info, c)).behind == sh.behind)
            <==> !FullTurn(size, tx.write.data, |sh.data|)
  {
    hide Written;
    var N, at := |sh.data|, tx.write.data % |sh.data|;
    if FullTurn(size, tx.write.data, N) {
      var other: Byte := if sh.behind[0] == 0 then 1 else 0;
      var c := seq(size, _ => other);
      var f := Filled(sh, tx, Microslice(info, c));
      assert f.behind[0] == c[N - at] != sh.behind[0];
    }
  }

  // ---- the receiver ----------------------------------------------------------------------

  function Fetched(sh: Shared, at: nat): (e: Entry)
    requires |sh.desc| > 0
  {
    sh.desc[at % |sh.desc|]
  }

  /** What the copy out of the ring returns: around the border, or past the end. */
  function Content(sh: Shared, e: Entry): (r: seq<Byte>)
    requires sh.Valid() && e.size <= |sh.data|
    ensures |r| == e.size
  {
    Stretch(sh, e.offset, e.size, e.size)
  }

  /** There is a next entry and it is not larger than the ring. */
  predicate Readable(sh: Shared, rx: Rx)
    requires |sh.desc| > 0
  {
    rx.cachedWrite > rx.readDesc || sh.write.desc > rx.readDesc ==> Fetched(sh, rx.readDesc).size <= |sh.data|
  }

  function TryGet(sh: Shared, rx: Rx): (r: (Shared, Rx, Option<Microslice>))
    requires sh.Valid() && Readable(sh, rx)
  {
    var rx1 := if rx.cachedWrite <= rx.readDesc then rx.(cachedWrite := sh.write.desc) else rx;
    if rx1.cachedWrite > rx1.readDesc then
      var e := Fetched(sh, rx1.readDesc);
      (sh.(read := Dual(rx1.readDesc + 1, e.offset + e.size)), rx1.(readDesc := rx1.readDesc + 1),
       Some(Microslice(e.info, Content(sh, e))))
    else (sh, rx1, None)
  }

  // ---- copies -----------------------------------------------------------------------------

  /** A copy that the pointer test takes for one segment stays inside the ring exactly when
      it is not a full turn. */
  lemma OneSegmentExactly(offset: nat, size: nat, N: nat)
    requires N > 0 && size <= N && offset % N <= (offset + size) % N
    ensures offset % N + size <= N <==> !FullTurn(size, offset, N)
  {
    EndSlot(offset, size, N);
  }

  lemma EndSlot(offset: nat, size: nat, N: nat)
    requires N > 0 && size <= N
    ensures (offset + size) % N == if offset % N + size < N then offset % N + size else offset % N + size - N
  {
    var q, o := offset / N, offset % N;
    assert offset == q * N + o && (q + 1) * N == q * N + N;
    if o + size < N {
      RemainderUnique(offset + size, N, q, o + size);
    } else if o + size - N < N {
      RemainderUnique(offset + size, N, q + 1, o + size - N);
    }
  }

  /** Two segments, also when the second one is empty. */
  lemma TwoSegments(was: seq<Byte>, w: nat, src: seq<Byte>)
    requires 0 < |was| && |src| <= |was| && w % |was| + |src| >= |was|
    ensures var a := |was| - w % |was|;
            a <= |src| && Written(was, w, src) == src[a..] + was[|src| - a..|was| - a] + src[..a]
  {
    if w % |was| + |src| == |was| {
      WrittenUnwrapped(was, w, src);
    } else {
      WrittenWrapped(was, w, src);
    }
  }

  // ---- every interleaving ------------------------------------------------------------------

  datatype TxPhase =
    | Idle
    | Copying(item: Microslice, k: nat)   // `k` bytes of the content are in the ring
    | Described(item: Microslice)         // the descriptor is there, with the item's own offset
    | Placed(item: Microslice)            // the offset is there, too

  datatype RxPhase =
    | Free
    | Reading(bytes: seq<Byte>)           // the bytes read so far
    | Taken(end: nat)                     // read but not yet given back

  /** Both processes and the ring between them. */
  datatype Link = Link(sh: Shared, tx: Tx, rx: Rx, txPhase: TxPhase, rxPhase: RxPhase,
                       put: seq<Microslice>, got: seq<Microslice>)

  /** The accesses to shared memory, each of them one step: a byte, a descriptor, an index. */
  datatype Step =
    | TxRefresh | TxBegin(item: Microslice) | TxByte | TxDesc(stale: nat) | TxOffset | TxPublish
    | RxRefresh | RxBegin | RxByte | RxEnd | RxPublish

  predicate CanWrite(l: Link, item: Microslice)
    requires l.sh.Valid()
  {
    l.txPhase.Idle? && Available(l.sh, l.tx, item) && |item.content| <= |l.sh.data|
  }

  function Slot(l: Link): (j: nat)
    requires l.sh.Valid()
    ensures j < |l.sh.desc|
  {
    l.tx.write.desc % |l.sh.desc|
  }

  function TxApply(l: Link, s: Step): (l': Link)
    requires l.sh.Valid()
    ensures l'.sh.Valid()
  {
    match (s, l.txPhase)
    case (TxRefresh, Idle) => l.(tx := l.tx.(cached := l.sh.read))
    case (TxBegin(item), Idle) =>
      if CanWrite(l, item) then l.(txPhase := Copying(item, 0), put := l.put + [item]) else l
    case (TxByte, Copying(item, k)) =>
      var n, N := |item.content|, |l.sh.data|;
      if k < n <= N then
        l.(sh := Stored(l.sh, Cell(l.tx.write.data, k, n, N), item.content[k]), txPhase := Copying(item, k + 1))
      else l
    case (TxDesc(stale), Copying(item, k)) =>
      if k == |item.content| then
        l.(sh := l.sh.(desc := l.sh.desc[Slot(l) := Entry(item.info, stale, k)]), txPhase := Described(item))
      else l
    case (TxOffset, Described(item)) =>
      l.(sh := l.sh.(desc := l.sh.desc[Slot(l) := l.sh.desc[Slot(l)].(offset := l.tx.write.data)]),
         txPhase := Placed(item))
    case (TxPublish, Placed(item)) =>
      var tx := Next(l.tx, item);
      l.(tx := tx, sh := l.sh.(write := tx.write), txPhase := Idle)
    case _ => l
  }

  function RxApply(l: Link, s: Step): (l': Link)
    requires l.sh.Valid()
    ensures l'.sh.Valid()
  {
    match (s, l.rxPhase)
    case (RxRefresh, Free) => l.(rx := l.rx.(cachedWrite := l.sh.write.desc))
    case (RxBegin, Free) => if l.rx.cachedWrite > l.rx.readDesc then l.(rxPhase := Reading([])) else l
    case (RxByte, Reading(bytes)) =>
      var e := Fetched(l.sh, l.rx.readDesc);
      if |bytes| < e.size <= |l.sh.data| then
        l.(rxPhase := Reading(bytes + [Load(l.sh, Cell(e.offset, |bytes|, e.size, |l.sh.data|))]))
      else l
    case (RxEnd, Reading(bytes)) =>
      var e := Fetched(l.sh, l.rx.readDesc);
      if |bytes| == e.size then
        l.(rxPhase := Taken(e.offset + e.size), got := l.got + [Microslice(e.info, bytes)])
      else l
    case (RxPublish, Taken(end)) =>
      l.(rx := l.rx.(readDesc := l.rx.readDesc + 1), sh := l.sh.(read := Dual(l.rx.readDesc + 1, end)), rxPhase := Free)
    case _ => l
  }

  /** One access of either side; an access that is not due changes nothing. */
  function Apply(l: Link, s: Step): (l': Link)
    requires l.sh.Valid()
    ensures l'.sh.Valid()
  {
    if s.TxRefresh? || s.TxBegin? || s.TxByte? || s.TxDesc? || s.TxOffset? || s.TxPublish?
    then TxApply(l, s) else RxApply(l, s)
  }

  function Run(l: Link, steps: seq<Step>): (l': Link)
    requires l.sh.Valid()
    ensures l'.sh.Valid()
    decreases |steps|
  {
    if |steps| == 0 then l else Run(Apply(l, steps[0]), steps[1..])
  }

  function Initial(desc: seq<Entry>, data: seq<Byte>, behind: seq<Byte>): (l: Link)
  {
    Link(Shared(desc, data, behind, Dual(0, 0), Dual(0, 0)), Tx(Dual(0, 0), Dual(0, 0)), Rx(0, 0), Idle, Free, [], [])
  }

  // ---- invariant ---------------------------------------------------------------------------

  /** Where the `p`th microslice starts in the endless data stream. */
  ghost function Start(put: seq<Microslice>, p: nat): (r: nat)
    requires p <= |put|
  {
    if p == 0 then 0 else Start(put, p - 1) + |put[p - 1].content|
  }

  ghost function At(put: seq<Microslice>, p: nat): (d: Dual)
    requires p <= |put|
  {
    Dual(p, Start(put, p))
  }

  lemma {:induction false} StartMonotone(put: seq<Microslice>, a: nat, b: nat)
    requires a <= b <= |put|
    ensures Start(put, a) <= Start(put, b)
    decreases b
  {
    if a < b {
      StartMonotone(put, a, b - 1);
    }
  }

  lemma {:induction false} StartGrows(put: seq<Microslice>, item: Microslice, p: nat)
    requires p <= |put|
    ensures Start(put + [item], p) == Start(put, p)
  {
    if p > 0 {
      StartGrows(put, item, p - 1);
    }
  }

  lemma StartNext(put: seq<Microslice>, p: nat)
    requires p < |put|
    ensures Start(put, p + 1) == Start(put, p) + |put[p].content|
  {
  }

  /** Microslice `p` lies where the receiver looks for it, as it was put. */
  ghost predicate Holds(sh: Shared, put: seq<Microslice>, p: nat)
    requires sh.Valid()
  {
    && p < |put| && |put[p].content| <= |sh.data|
    && Fetched(sh, p) == Entry(put[p].info, Start(put, p), |put[p].content|)
    && Content(sh, Fetched(sh, p)) == put[p].content
  }

  /** Everything published and not yet given back is intact. */
  ghost predicate Unread(l: Link)
    requires l.sh.Valid()
  {
    forall p :: l.sh.read.desc <= p < l.sh.write.desc ==> Holds(l.sh, l.put, p)
  }

  /** How far the transmitter has come with the microslice it is writing. */
  ghost predicate TxInv(l: Link)
    requires l.sh.Valid()
  {
    var w := l.sh.write.desc;
    && l.tx.write == l.sh.write
    && (if l.txPhase.Idle? then |l.put| == w else |l.put| == w + 1 && l.put[w] == l.txPhase.item)
    && l.sh.write == At(l.put, w)
    && |l.put| <= l.tx.cached.desc + |l.sh.desc| && Start(l.put, |l.put|) <= l.tx.cached.data + |l.sh.data|
    && match l.txPhase
       case Idle => true
       case Copying(item, k) =>
         && k <= |item.content| <= |l.sh.data|
         && Stretch(l.sh, l.tx.write.data, |item.content|, k) == item.content[..k]
       case Described(item) =>
         && |item.content| <= |l.sh.data|
         && Stretch(l.sh, l.tx.write.data, |item.content|, |item.content|) == item.content
         && l.sh.desc[Slot(l)] == Entry(item.info, l.sh.desc[Slot(l)].offset, |item.content|)
       case Placed(item) => Holds(l.sh, l.put, w)
  }

  /** How far the receiver has come with the microslice it is reading. */
  ghost predicate RxInv(l: Link)
    requires l.sh.Valid()
  {
    var r := l.sh.read.desc;
    && l.rx.readDesc == r <= |l.got| <= l.rx.cachedWrite <= l.sh.write.desc <= |l.put|
    && l.sh.read == At(l.put, r)
    && l.got == l.put[..|l.got|]
    && match l.rxPhase
       case Free => r == |l.got|
       case Reading(bytes) =>
         && r == |l.got| < l.rx.cachedWrite
         && |bytes| <= |l.put[r].content| && bytes == l.put[r].content[..|bytes|]
       case Taken(end) => r + 1 == |l.got| && end == Start(l.put, r + 1)
  }

  ghost predicate Inv(l: Link)
  {
    && l.sh.Valid() && TxInv(l) && RxInv(l) && Unread(l)
    && l.tx.cached.desc <= l.sh.read.desc && l.tx.cached == At(l.put, l.tx.cached.desc)
  }

  lemma InitialInv(desc: seq<Entry>, data: seq<Byte>, behind: seq<Byte>)
    requires |desc| > 0 && |data| > 0 && |behind| == |data|
    ensures Inv(Initial(desc, data, behind))
  {
  }

  // ---- single accesses leave everything else alone ---------------------------------------------

  /** Storing a byte of a stretch leaves every earlier stretch alone that is at most one turn
      long together with it.  A full turn has the ring for itself. */
  lemma ByteLeaves(sh: Shared, w: nat, n: nat, k: nat, b: Byte, offset: nat, size: nat)
    requires sh.Valid() && k < n <= |sh.data| && size <= |sh.data|
    requires offset + size <= w && w + n <= offset + |sh.data|
    ensures var sh' := Stored(sh, Cell(w, k, n, |sh.data|), b);
            Stretch(sh', offset, size, size) == Stretch(sh, offset, size, size)
  {
    hide Stored;
    var N := |sh.data|;
    var sh' := Stored(sh, Cell(w, k, n, N), b);
    var u, v := Stretch(sh, offset, size, size), Stretch(sh', offset, size, size);
    forall j | 0 <= j < size
      ensures u[j] == v[j]
    {
      SlotApart(offset + j, w + k, N);
    }
  }

  /** Storing the next byte extends a stretch. */
  lemma ByteExtends(sh: Shared, w: nat, n: nat, k: nat, b: Byte)
    requires sh.Valid() && k < n <= |sh.data|
    ensures var sh' := Stored(sh, Cell(w, k, n, |sh.data|), b); Stretch(sh', w, n, k + 1) == Stretch(sh, w, n, k) + [b]
  {
    hide Stored;
    var N := |sh.data|;
    var sh' := Stored(sh, Cell(w, k, n, N), b);
    var u, v := Stretch(sh', w, n, k + 1), Stretch(sh, w, n, k) + [b];
    forall j | 0 <= j < k + 1
      ensures u[j] == v[j]
    {
      if j < k {
        SlotApart(w + j, w + k, N);
      }
    }
  }

  /** A stretch depends on the memory alone. */
  lemma SameStretch(sh: Shared, sh': Shared, offset: nat, size: nat, k: nat)
    requires sh.Valid() && sh'.Valid() && sh'.data == sh.data && sh'.behind == sh.behind && k <= size <= |sh.data|
    ensures Stretch(sh', offset, size, k) == Stretch(sh, offset, size, k)
  {
  }

  lemma SlotApart(p: nat, q: nat, size: nat)
    requires p < q < p + size
    ensures p % size != q % size
  {
    if p % size == q % size {
      SlotsDistinct(p, q, size);
    }
  }

  /** What is written lies ahead of everything unread by less than one turn. */
  lemma WriteAhead(l: Link, p: nat)
    requires Inv(l) && !l.txPhase.Idle? && l.sh.read.desc <= p < l.sh.write.desc
    ensures p % |l.sh.desc| != Slot(l)
    ensures Start(l.put, p) + |l.put[p].content| <= l.tx.write.data
    ensures l.tx.write.data + |l.txPhase.item.content| <= Start(l.put, p) + |l.sh.data|
  {
    hide Start, Stretch;
    StartNext(l.put, p);
    StartNext(l.put, l.sh.write.desc);
    StartMonotone(l.put, p + 1, l.sh.write.desc);
    StartMonotone(l.put, l.tx.cached.desc, p);
    SlotApart(p, l.tx.write.desc, |l.sh.desc|);
  }

  /** The transmitter's accesses keep every unread microslice. */
  lemma WriteLeaves(l: Link, s: Step)
    requires Inv(l)
    ensures Unread(TxApply(l, s))
  {
    hide Stretch, Start, Inv, TxInv, RxInv;
    InvParts(l);
    var l' := TxApply(l, s);
    if l.txPhase.Idle? {
      if s.TxBegin? {
        UnreadGrows(l, s.item);
      }
    } else if !s.TxPublish? {
      forall p | l.sh.read.desc <= p < l.sh.write.desc
        ensures Holds(l'.sh, l'.put, p)
      {
        assert Holds(l.sh, l.put, p);
        WriteAhead(l, p);
        if s.TxByte? && l.txPhase.Copying? && l.txPhase.k < |l.txPhase.item.content| <= |l.sh.data| {
          var item, k := l.txPhase.item, l.txPhase.k;
          ByteLeaves(l.sh, l.tx.write.data, |item.content|, k, item.content[k], Start(l.put, p), |l.put[p].content|);
        } else {
          SameStretch(l.sh, l'.sh, Start(l.put, p), |l.put[p].content|, |l.put[p].content|);
        }
      }
    } else {
      PublishedHolds(l);
    }
  }

  lemma InvParts(l: Link)
    requires Inv(l)
    ensures l.sh.Valid() && Unread(l) && TxInv(l) && RxInv(l)
    ensures l.sh.write.desc <= |l.put| && l.tx.write == l.sh.write
  {
  }

  lemma UnreadGrows(l: Link, item: Microslice)
    requires l.sh.Valid() && Unread(l)
    ensures forall p :: l.sh.read.desc <= p < l.sh.write.desc ==> Holds(l.sh, l.put + [item], p)
  {
    hide Stretch, Start;
    forall p | l.sh.read.desc <= p < l.sh.write.desc
      ensures Holds(l.sh, l.put + [item], p)
    {
      assert Holds(l.sh, l.put, p);
      StartGrows(l.put, item, p);
    }
  }

  lemma PublishedHolds(l: Link)
    requires Inv(l)
    ensures Unread(TxApply(l, TxPublish))
  {
    hide Stretch, Start;
    var l' := TxApply(l, TxPublish);
    forall p | l'.sh.read.desc <= p < l'.sh.write.desc
      ensures Holds(l'.sh, l'.put, p)
    {
      assert Holds(l.sh, l.put, p);
      SameStretch(l.sh, l'.sh, Start(l.put, p), |l.put[p].content|, |l.put[p].content|);
    }
  }

  // ---- every access keeps the invariant -----------------------------------------------------------

  lemma TxKeeps(l: Link, s: Step)
    requires Inv(l)
    ensures TxInv(TxApply(l, s))
  {
    hide Stretch, Start, Unread;
    var l' := TxApply(l, s);
    if !l.txPhase.Idle? && |l.txPhase.item.content| <= |l.sh.data| && !s.TxByte? {
      SameStretch(l.sh, l'.sh, l.tx.write.data, |l.txPhase.item.content|, |l.txPhase.item.content|);
    }
    match (s, l.txPhase)
    case (TxRefresh, Idle) => StartMonotone(l.put, l.tx.cached.desc, l.sh.read.desc);
    case (TxBegin(item), Idle) =>
      if CanWrite(l, item) {
        StartGrows(l.put, item, |l.put|);
        StartNext(l.put + [item], |l.put|);
        assert Stretch(l.sh, l.tx.write.data, |item.content|, 0) == item.content[..0];
      }
    case (TxByte, Copying(item, k)) =>
      if k < |item.content| {
        ByteExtends(l.sh, l.tx.write.data, |item.content|, k, item.content[k]);
        assert item.content[..k + 1] == item.content[..k] + [item.content[k]];
      }
    case (TxDesc(stale), Copying(item, k)) =>
      assert item.content[..|item.content|] == item.content;
    case (TxPublish, Placed(item)) => StartNext(l.put, l.sh.write.desc);
    case _ =>
  }

  lemma TxLeavesRx(l: Link, s: Step)
    requires Inv(l)
    ensures var l' := TxApply(l, s);
            && RxInv(l')
            && l'.tx.cached.desc <= l'.sh.read.desc && l'.tx.cached == At(l'.put, l'.tx.cached.desc)
  {
    hide Stretch, Start, Unread, Holds;
    if s.TxBegin? && l.txPhase.Idle? {
      StartGrows(l.put, s.item, l.sh.read.desc);
      StartGrows(l.put, s.item, l.tx.cached.desc);
      if l.rxPhase.Taken? {
        StartGrows(l.put, s.item, l.sh.read.desc + 1);
      }
    }
  }

  lemma RxKeeps(l: Link, s: Step)
    requires Inv(l)
    ensures Inv(RxApply(l, s))
  {
    hide Stretch, Start;
    var r := l.rx.readDesc;
    RxLeaves(l, s);
    if l.rxPhase.Reading? {
      assert Holds(l.sh, l.put, r);
      StartNext(l.put, r);
      ReadByte(l);
      assert l.put[..r + 1] == l.put[..r] + [l.put[r]];
    }
  }

  /** The receiver changes nothing that the transmitter or a later read looks at. */
  lemma RxLeaves(l: Link, s: Step)
    requires Inv(l)
    ensures TxInv(RxApply(l, s))
    ensures forall p :: l.sh.read.desc <= p < l.sh.write.desc ==> Holds(RxApply(l, s).sh, l.put, p)
  {
    hide Stretch, Start;
    var l' := RxApply(l, s);
    forall p | l.sh.read.desc <= p < l.sh.write.desc
      ensures Holds(l'.sh, l.put, p)
    {
      assert Holds(l.sh, l.put, p);
      SameStretch(l.sh, l'.sh, Start(l.put, p), |l.put[p].content|, |l.put[p].content|);
    }
    match l.txPhase
    case Copying(item, k) => SameStretch(l.sh, l'.sh, l.tx.write.data, |item.content|, k);
    case Described(item) => SameStretch(l.sh, l'.sh, l.tx.write.data, |item.content|, |item.content|);
    case Placed(item) => SameStretch(l.sh, l'.sh, l.tx.write.data, |item.content|, |item.content|);
    case Idle =>
  }

  /** The next byte read is the next byte put. */
  lemma ReadByte(l: Link)
    requires Inv(l) && l.rxPhase.Reading? && Holds(l.sh, l.put, l.rx.readDesc)
    ensures var e, n := Fetched(l.sh, l.rx.readDesc), |l.rxPhase.bytes|;
            && e.size == |l.put[l.rx.readDesc].content|
            && (n < e.size ==>
                  && e.size <= |l.sh.data|
                  && l.rxPhase.bytes + [Load(l.sh, Cell(e.offset, n, e.size, |l.sh.data|))]
                     == l.put[l.rx.readDesc].content[..n + 1])
            && (n == e.size ==> l.rxPhase.bytes == l.put[l.rx.readDesc].content)
  {
    hide Start;
    var item, n := l.put[l.rx.readDesc], |l.rxPhase.bytes|;
    if n < |item.content| {
      assert Content(l.sh, Fetched(l.sh, l.rx.readDesc))[n] == item.content[n];
    }
  }

  lemma ApplyKeeps(l: Link, s: Step)
    requires Inv(l)
    ensures Inv(Apply(l, s))
  {
    hide TxInv, RxInv, Unread, TxApply, RxApply;
    WriteLeaves(l, s);
    TxKeeps(l, s);
    TxLeavesRx(l, s);
    RxKeeps(l, s);
  }

  lemma {:induction false} RunKeeps(l: Link, steps: seq<Step>)
    requires Inv(l)
    ensures Inv(Run(l, steps))
    decreases |steps|
  {
    hide Inv, Apply;
    InvParts(l);
    if |steps| > 0 {
      ApplyKeeps(l, steps[0]);
      RunKeeps(Apply(l, steps[0]), steps[1..]);
    }
  }

  /** For every interleaving: what was received is a prefix of what was put, everything
      published and not yet given back is intact in the ring, and what the receiver has read
      of the next microslice is the beginning of its content, whatever the transmitter is
      writing meanwhile. */
  lemma ReceivedIsPrefix(desc: seq<Entry>, data: seq<Byte>, behind: seq<Byte>, steps: seq<Step>)
    requires |desc| > 0 && |data| > 0 && |behind| == |data|
    ensures var l := Run(Initial(desc, data, behind), steps);
            && |l.got| <= l.sh.write.desc <= |l.put| && l.got == l.put[..|l.got|]
            && l.sh.read.desc <= |l.got| <= l.sh.read.desc + 1
            && (l.rxPhase.Reading? ==> |l.got| < |l.put| && l.rxPhase.bytes <= l.put[|l.got|].content)
            && forall p :: l.sh.read.desc <= p < l.sh.write.desc ==> Holds(l.sh, l.put, p)
  {
    InitialInv(desc, data, behind);
    RunKeeps(Initial(desc, data, behind), steps);
  }

  /** The indices are always in the order a call needs. */
  lemma InvAllows(l: Link)
    requires Inv(l)
    ensures InOrder(l.sh, l.tx) && Readable(l.sh, l.rx)
  {
    hide Start, Stretch;
    StartMonotone(l.put, l.tx.cached.desc, l.sh.write.desc);
    StartMonotone(l.put, l.sh.read.desc, l.sh.write.desc);
    if l.sh.write.desc > l.rx.readDesc {
      assert Holds(l.sh, l.put, l.sh.read.desc);
    }
  }

  /** A put is accepted exactly if what is unread leaves a descriptor slot and enough bytes: the
      cached index changes no answer. */
  lemma PutExactly(l: Link, item: Microslice)
    requires Inv(l) && l.txPhase.Idle?
    ensures InOrder(l.sh, l.tx)
    ensures TryPut(l.sh, l.tx, item).2 <==>
            && l.sh.write.desc + 1 <= l.sh.read.desc + |l.sh.desc|
            && l.sh.write.data + |item.content| <= l.sh.read.data + |l.sh.data|
  {
    hide Start, Stretch, Filled;
    InvAllows(l);
    StartMonotone(l.put, l.tx.cached.desc, l.sh.read.desc);
  }

  /** A get returns something exactly if something is unread, and then the next microslice put. */
  lemma GetExactly(l: Link)
    requires Inv(l) && l.rxPhase.Free?
    ensures Readable(l.sh, l.rx)
    ensures var r := TryGet(l.sh, l.rx).2;
            && (r.Some? <==> l.sh.read.desc < l.sh.write.desc)
            && (r.Some? ==> |l.got| < |l.put| && r == Some(l.put[|l.got|]))
  {
    hide Start, Stretch;
    InvAllows(l);
    if l.sh.read.desc < l.sh.write.desc {
      assert Holds(l.sh, l.put, l.sh.read.desc);
    }
  }

  /** A drained ring accepts a microslice exactly if it is not larger than the ring. */
  lemma DrainedAccepts(l: Link, item: Microslice)
    requires Inv(l) && l.txPhase.Idle? && l.sh.read == l.sh.write
    ensures InOrder(l.sh, l.tx) && (TryPut(l.sh, l.tx, item).2 <==> |item.content| <= |l.sh.data|)
  {
    hide Written;
    InvAllows(l);
  }

  // ---- calls are sequences of accesses ------------------------------------------------------------

  lemma {:induction false} RunAppend(l: Link, a: seq<Step>, b: seq<Step>)
    requires l.sh.Valid()
    ensures Run(l, a + b) == Run(Run(l, a), b)
    decreases |a|
  {
    hide Apply;
    if |a| == 0 {
      assert a + b == b;
    } else {
      assert (a + b)[1..] == a[1..] + b;
      RunAppend(Apply(l, a[0]), a[1..], b);
    }
  }

  lemma RunOne(l: Link, s: Step)
    requires l.sh.Valid()
    ensures Run(l, [s]) == Apply(l, s)
  {
    hide Apply;
    assert [s][1..] == [];
  }

  lemma RunThree(l: Link, a: Step, b: Step, c: Step)
    requires l.sh.Valid()
    ensures Run(l, [a, b, c]) == Apply(Apply(Apply(l, a), b), c)
  {
    hide Apply, Run;
    assert [a, b, c] == [a] + ([b] + [c]);
    RunAppend(l, [a], [b] + [c]);
    RunOne(l, a);
    RunAppend(Apply(l, a), [b], [c]);
    RunOne(Apply(l, a), b);
    RunOne(Apply(Apply(l, a), b), c);
  }

  function Repeat(s: Step, n: nat): (steps: seq<Step>)
    ensures |steps| == n
  {
    if n == 0 then [] else [s] + Repeat(s, n - 1)
  }

  lemma RunRepeat(l: Link, s: Step, n: nat)
    requires l.sh.Valid()
    ensures Run(l, Repeat(s, n)) == if n == 0 then l else Run(Apply(l, s), Repeat(s, n - 1))
  {
    hide Apply;
    if n > 0 {
      assert Repeat(s, n)[1..] == Repeat(s, n - 1);
    }
  }

  lemma {:induction false} RunIdle(l: Link, s: Step, n: nat)
    requires l.sh.Valid() && Apply(l, s) == l
    ensures Run(l, Repeat(s, n)) == l
  {
    hide Apply;
    RunRepeat(l, s, n);
    if n > 0 {
      RunIdle(l, s, n - 1);
    }
  }

  /** The memory after the first `k` bytes of a copy. */
  function CopiedTo(sh: Shared, w: nat, src: seq<Byte>, k: nat): (sh': Shared)
    requires sh.Valid() && k <= |src| <= |sh.data|
    ensures sh'.Valid() && sh' == sh.(data := sh'.data, behind := sh'.behind) && |sh'.data| == |sh.data|
  {
    if k == 0 then sh else Stored(CopiedTo(sh, w, src, k - 1), Cell(w, k - 1, |src|, |sh.data|), src[k - 1])
  }

  /** Copied around the border. */
  lemma {:induction false} CopiedAround(sh: Shared, w: nat, src: seq<Byte>, k: nat)
    requires sh.Valid() && k <= |src| <= |sh.data| && !FullTurn(|src|, w, |sh.data|)
    ensures CopiedTo(sh, w, src, k) == sh.(data := Written(sh.data, w, src[..k]))
  {
    hide Written;
    if k == 0 {
      WrittenNothing(sh.data, w, src);
    } else {
      CopiedAround(sh, w, src, k - 1);
      WrittenStep(sh.data, w, src, k - 1);
    }
  }

  /** The cell after `k` bytes were copied straight on from `at`. */
  function PastByte(sh: Shared, at: nat, src: seq<Byte>, k: nat, j: nat): (b: Byte)
    requires sh.Valid() && j < 2 * |sh.data| && k <= |src|
  {
    if at <= j < at + k then src[j - at] else Load(sh, j)
  }

  /** Copied past the end of the ring. */
  lemma {:induction false} CopiedPast(sh: Shared, w: nat, src: seq<Byte>, k: nat, j: nat)
    requires sh.Valid() && k <= |src| == |sh.data| && FullTurn(|src|, w, |sh.data|) && j < 2 * |sh.data|
    ensures Load(CopiedTo(sh, w, src, k), j) == PastByte(sh, w % |sh.data|, src, k, j)
  {
    hide Load, Stored;
    if k > 0 {
      CopiedPast(sh, w, src, k - 1, j);
    }
  }

  lemma CopiedIsFilled(sh: Shared, tx: Tx, item: Microslice)
    requires sh.Valid() && |item.content| <= |sh.data|
    ensures var c := CopiedTo(sh, tx.write.data, item.content, |item.content|);
            Filled(sh, tx, item)
            == c.(desc := sh.desc[tx.write.desc % |sh.desc| := Entry(item.info, tx.write.data, |item.content|)])
  {
    hide Written, CopiedTo, Load, StraightOn;
    var w, src := tx.write.data, item.content;
    if FullTurn(|src|, w, |sh.data|) {
      FilledStraight(sh, tx, item);
      PastSame(sh, Filled(sh, tx, item), w, src);
    } else {
      CopiedAround(sh, w, src, |src|);
      assert src[..|src|] == src;
    }
  }

  lemma FilledStraight(sh: Shared, tx: Tx, item: Microslice)
    requires sh.Valid() && |item.content| == |sh.data| && FullTurn(|item.content|, tx.write.data, |sh.data|)
    ensures StraightOn(sh, Filled(sh, tx, item), tx.write.data % |sh.data|, item.content)
  {
  }

  /** The memory after `src`, as large as the ring, was copied straight on from `at`. */
  ghost predicate StraightOn(sh: Shared, f: Shared, at: nat, src: seq<Byte>)
    requires sh.Valid() && at < |sh.data| == |src|
  {
    && |f.data| == |f.behind| == |src|
    && f.data == sh.data[..at] + src[..|src| - at] && f.behind == src[|src| - at..] + sh.behind[at..]
  }

  lemma StraightByte(sh: Shared, f: Shared, at: nat, src: seq<Byte>, j: nat)
    requires sh.Valid() && j < |sh.data| == |src| && at < |sh.data| && StraightOn(sh, f, at, src)
    ensures f.data[j] == PastByte(sh, at, src, |src|, j) && f.behind[j] == PastByte(sh, at, src, |src|, j + |src|)
  {
  }

  lemma PastSame(sh: Shared, f: Shared, w: nat, src: seq<Byte>)
    requires sh.Valid() && |src| == |sh.data| && FullTurn(|src|, w, |sh.data|) && StraightOn(sh, f, w % |src|, src)
    ensures var c := CopiedTo(sh, w, src, |src|); f.data == c.data && f.behind == c.behind
  {
    hide PastByte, CopiedTo, FullTurn, StraightOn, Load;
    var c := CopiedTo(sh, w, src, |src|);
    forall j: nat | j < |src|
      ensures j < |f.data| && f.data[j] == c.data[j] && j < |f.behind| && f.behind[j] == c.behind[j]
    {
      PastByteSame(sh, f, c, w, src, j);
    }
    StraightSizes(sh, f, w % |src|, src);
  }

  lemma StraightSizes(sh: Shared, f: Shared, at: nat, src: seq<Byte>)
    requires sh.Valid() && at < |sh.data| == |src| && StraightOn(sh, f, at, src)
    ensures |f.data| == |f.behind| == |src|
  {
  }

  lemma PastByteSame(sh: Shared, f: Shared, c: Shared, w: nat, src: seq<Byte>, j: nat)
    requires sh.Valid() && |src| == |sh.data| && FullTurn(|src|, w, |sh.data|) && StraightOn(sh, f, w % |src|, src)
    requires c == CopiedTo(sh, w, src, |src|) && j < |src|
    ensures |f.data| == |f.behind| == |src| && f.data[j] == c.data[j] && f.behind[j] == c.behind[j]
  {
    hide PastByte, CopiedTo, FullTurn, StraightOn, Load;
    var N := |src|;
    StraightSizes(sh, f, w % N, src);
    CopiedPast(sh, w, src, N, j);
    CopiedPast(sh, w, src, N, j + N);
    StraightByte(sh, f, w % N, src, j);
    LoadIs(c, j);
  }

  lemma LoadIs(sh: Shared, j: nat)
    requires sh.Valid() && j < |sh.data|
    ensures Load(sh, j) == sh.data[j] && Load(sh, j + |sh.data|) == sh.behind[j]
  {
  }

  /** One byte more. */
  lemma WrittenStep(data: seq<Byte>, w: nat, src: seq<Byte>, k: nat)
    requires 0 < |data| && k < |src| <= |data|
    ensures Written(data, w, src[..k])[(w + k) % |data| := src[k]] == Written(data, w, src[..k + 1])
  {
    var N := |data|;
    var u, v := Written(data, w, src[..k])[(w + k) % N := src[k]], Written(data, w, src[..k + 1]);
    forall j | 0 <= j < N
      ensures u[j] == v[j]
    {
      AheadIs(j, w, N);
      EndSlot(w, k, N);
    }
  }

  /** The byte accesses of a copy amount to the copy. */
  lemma {:induction false} CopyRun(l: Link, item: Microslice, k: nat, base: Shared)
    requires l.sh.Valid() && base.Valid() && l.txPhase == Copying(item, k)
    requires k <= |item.content| <= |base.data| && l.sh == CopiedTo(base, l.tx.write.data, item.content, k)
    ensures Run(l, Repeat(TxByte, |item.content| - k))
            == l.(sh := CopiedTo(base, l.tx.write.data, item.content, |item.content|),
                  txPhase := Copying(item, |item.content|))
    decreases |item.content| - k
  {
    hide Run, Stored, Cell;
    RunRepeat(l, TxByte, |item.content| - k);
    if k < |item.content| {
      CopyRun(Apply(l, TxByte), item, k + 1, base);
    }
  }

  /** The accesses of one call of the transmitter. */
  function PutSteps(l: Link, item: Microslice, stale: nat): (steps: seq<Step>)
  {
    (if Available(l.sh, l.tx, item) then [] else [TxRefresh]) + [TxBegin(item)] + Repeat(TxByte, |item.content|)
    + [TxDesc(stale), TxOffset, TxPublish]
  }

  lemma PutIsSteps(l: Link, item: Microslice, stale: nat)
    requires l.sh.Valid() && l.txPhase.Idle? && InOrder(l.sh, l.tx)
    ensures var r := TryPut(l.sh, l.tx, item);
            Run(l, PutSteps(l, item, stale)) == l.(sh := r.0, tx := r.1, put := l.put + if r.2 then [item] else [])
  {
    hide Filled, Run, Repeat;
    var pre := if Available(l.sh, l.tx, item) then [] else [TxRefresh];
    RunOne(l, TxRefresh);
    RunNone(l);
    var l1 := l.(tx := Refreshed(l.sh, l.tx, item));
    assert l1 == Run(l, pre);
    RunParts(l, pre, TxBegin(item), Repeat(TxByte, |item.content|), [TxDesc(stale), TxOffset, TxPublish]);
    PutRest(l1, item, stale);
  }

  /** The accesses after the refresh. */
  lemma PutRest(l: Link, item: Microslice, stale: nat)
    requires l.sh.Valid() && l.txPhase.Idle? && InOrder(l.sh, l.tx)
    ensures var l' := Run(Run(Apply(l, TxBegin(item)), Repeat(TxByte, |item.content|)),
                          [TxDesc(stale), TxOffset, TxPublish]);
            if Available(l.sh, l.tx, item) then
              var tx := Next(l.tx, item);
              l' == l.(sh := Filled(l.sh, l.tx, item).(write := tx.write), tx := tx, put := l.put + [item])
            else l' == l
  {
    hide Filled, CopiedTo, Run, Repeat;
    var n := |item.content|;
    var l2 := Apply(l, TxBegin(item));
    var l3 := Run(l2, Repeat(TxByte, n));
    RunThree(l3, TxDesc(stale), TxOffset, TxPublish);
    if Available(l.sh, l.tx, item) {
      CopiedNone(l.sh, l.tx.write.data, item.content);
      CopyRun(l2, item, 0, l.sh);
      CopiedIsFilled(l.sh, l.tx, item);
      PutFinish(l3, item, stale);
    } else {
      RunIdle(l, TxByte, n);
    }
  }

  lemma PutFinish(l: Link, item: Microslice, stale: nat)
    requires l.sh.Valid() && l.txPhase == Copying(item, |item.content|)
    ensures var tx := Next(l.tx, item);
            var desc := l.sh.desc[Slot(l) := Entry(item.info, l.tx.write.data, |item.content|)];
            Apply(Apply(Apply(l, TxDesc(stale)), TxOffset), TxPublish)
            == l.(sh := l.sh.(desc := desc, write := tx.write), tx := tx, txPhase := Idle)
  {
  }

  lemma RunParts(l: Link, pre: seq<Step>, a: Step, mid: seq<Step>, post: seq<Step>)
    requires l.sh.Valid()
    ensures Run(l, pre + [a] + mid + post) == Run(Run(Apply(Run(l, pre), a), mid), post)
  {
    hide Run, Apply;
    RunAppend(l, pre, [a]);
    RunOne(Run(l, pre), a);
    RunAppend(l, pre + [a], mid);
    RunAppend(l, pre + [a] + mid, post);
  }

  lemma RunNone(l: Link)
    requires l.sh.Valid()
    ensures Run(l, []) == l
  {
  }

  lemma CopiedNone(sh: Shared, w: nat, src: seq<Byte>)
    requires sh.Valid() && |src| <= |sh.data|
    ensures CopiedTo(sh, w, src, 0) == sh
  {
  }

  lemma WrittenNothing(data: seq<Byte>, w: nat, src: seq<Byte>)
    requires 0 < |data|
    ensures Written(data, w, src[..0]) == data
  {
  }

  /** The byte accesses of the receiver amount to the copy. */
  lemma {:induction false} ReadRun(l: Link, e: Entry, k: nat)
    requires l.sh.Valid() && Fetched(l.sh, l.rx.readDesc) == e && k <= e.size <= |l.sh.data|
    requires l.rxPhase == Reading(Stretch(l.sh, e.offset, e.size, k))
    ensures Run(l, Repeat(RxByte, e.size - k)) == l.(rxPhase := Reading(Content(l.sh, e)))
    decreases e.size - k
  {
    hide Run, Load, Cell;
    RunRepeat(l, RxByte, e.size - k);
    if k < e.size {
      assert Stretch(l.sh, e.offset, e.size, k + 1)
             == Stretch(l.sh, e.offset, e.size, k) + [Load(l.sh, Cell(e.offset, k, e.size, |l.sh.data|))];
      ReadRun(Apply(l, RxByte), e, k + 1);
    }
  }

  /** The accesses of one call of the receiver. */
  function GetSteps(l: Link): (steps: seq<Step>)
    requires l.sh.Valid()
  {
    (if l.rx.cachedWrite <= l.rx.readDesc then [RxRefresh] else []) + [RxBegin]
    + Repeat(RxByte, Fetched(l.sh, l.rx.readDesc).size) + [RxEnd, RxPublish]
  }

  lemma GetIsSteps(l: Link)
    requires l.sh.Valid() && l.rxPhase.Free? && Readable(l.sh, l.rx)
    ensures var r := TryGet(l.sh, l.rx);
            Run(l, GetSteps(l)) == l.(sh := r.0, rx := r.1, got := l.got + if r.2.Some? then [r.2.value] else [])
  {
    hide Run, Repeat, Stretch;
    var stale := l.rx.cachedWrite <= l.rx.readDesc;
    var pre := if stale then [RxRefresh] else [];
    RunOne(l, RxRefresh);
    RunNone(l);
    var l1 := if stale then l.(rx := l.rx.(cachedWrite := l.sh.write.desc)) else l;
    assert l1 == Run(l, pre);
    RunParts(l, pre, RxBegin, Repeat(RxByte, Fetched(l.sh, l.rx.readDesc).size), [RxEnd, RxPublish]);
    GetRest(l1);
  }

  lemma GetRest(l: Link)
    requires l.sh.Valid() && l.rxPhase.Free?
    requires l.rx.cachedWrite > l.rx.readDesc ==> Fetched(l.sh, l.rx.readDesc).size <= |l.sh.data|
    ensures var e := Fetched(l.sh, l.rx.readDesc);
            var l' := Run(Run(Apply(l, RxBegin), Repeat(RxByte, e.size)), [RxEnd, RxPublish]);
            if l.rx.cachedWrite > l.rx.readDesc then
              var n := l.rx.readDesc + 1;
              l' == l.(sh := l.sh.(read := Dual(n, e.offset + e.size)), rx := l.rx.(readDesc := n),
                       got := l.got + [Microslice(e.info, Content(l.sh, e))])
            else l' == l
  {
    hide Run, Repeat;
    var e := Fetched(l.sh, l.rx.readDesc);
    var l2 := Apply(l, RxBegin);
    var l3 := Run(l2, Repeat(RxByte, e.size));
    assert [RxEnd, RxPublish] == [RxEnd] + [RxPublish];
    RunAppend(l3, [RxEnd], [RxPublish]);
    RunOne(l3, RxEnd);
    RunOne(Apply(l3, RxEnd), RxPublish);
    if l.rx.cachedWrite > l.rx.readDesc {
      assert Stretch(l2.sh, e.offset, e.size, 0) == [];
      ReadRun(l2, e, 0);
    } else {
      RunIdle(l, RxByte, e.size);
    }
  }

  /** A full turn can be reached: in a ring of two bytes, one byte put and received, then two
      bytes put. */
  lemma FullTurnReachable(e: Entry, a: Microslice, b: Microslice, behind: seq<Byte>) returns (steps: seq<Step>)
    requires |a.content| == 1 && |b.content| == 2 && |behind| == 2
    ensures var l := Run(Initial([e], [0, 0], behind), steps);
            && l.txPhase.Idle? && InOrder(l.sh, l.tx) && TryPut(l.sh, l.tx, b).2
            && FullTurn(|b.content|, l.tx.write.data, |l.sh.data|)
  {
    hide Written, Stretch, Run;
    var l0 := Initial([e], [0, 0], behind);
    PutIsSteps(l0, a, 0);
    var l1 := Run(l0, PutSteps(l0, a, 0));
    assert l1.tx == Tx(Dual(1, 1), Dual(0, 0)) && l1.sh.write == Dual(1, 1) && l1.sh.desc[0] == Entry(a.info, 0, 1);
    assert Fetched(l1.sh, 0) == l1.sh.desc[0];
    GetIsSteps(l1);
    var l2 := Run(l1, GetSteps(l1));
    assert l2.sh.read == Dual(1, 1) && l2.tx == l1.tx;
    steps := PutSteps(l0, a, 0) + GetSteps(l1);
    RunAppend(l0, PutSteps(l0, a, 0), GetSteps(l1));
  }

  // ---- the objects -------------------------------------------------------------------------

  /** Copies into the ring, which is the first half of `memory`, in one or two segments. */
  method CopyIn(memory: array<Byte>, N: nat, w: nat, src: seq<Byte>)
    requires 0 < N && memory.Length == 2 * N && |src| <= N
    modifies memory
    ensures CopiedIn(old(memory[..]), memory[..], N, w, src)
  {
    hide CopiedIn;
    var n := |src|;
    var begin, end := w % N, (w + n) % N;
    EndSlot(w, n, N);
    ghost var was := memory[..];
    if begin <= end {
      OneSegmentExactly(w, n, N);
      CopyInto(memory, begin, src);
      OneSegmentIn(was, memory[..], N, w, src);
    } else {
      var part1 := N - begin;
      CopyInto(memory, begin, src[..part1]);
      ghost var mid := memory[..];
      CopyInto(memory, 0, src[part1..]);
      TwoSegmentsIn(was, mid, memory[..], N, w, src, part1);
    }
  }

  /** The memory after a copy: around the border, or past the end of the ring. */
  ghost predicate CopiedIn(was: seq<Byte>, now: seq<Byte>, N: nat, w: nat, src: seq<Byte>)
    requires 0 < N && |was| == |now| == 2 * N && |src| <= N
  {
    var at := w % N;
    if FullTurn(|src|, w, N) then
      now[..N] == was[..N][..at] + src[..N - at] && now[N..] == src[N - at..] + was[N..][at..]
    else now[..N] == Written(was[..N], w, src) && now[N..] == was[N..]
  }

  lemma OneSegmentIn(was: seq<Byte>, now: seq<Byte>, N: nat, w: nat, src: seq<Byte>)
    requires 0 < N && |was| == 2 * N && |src| <= N
    requires FullTurn(|src|, w, N) || w % N + |src| <= N
    requires now == was[..w % N] + src + was[w % N + |src|..]
    ensures CopiedIn(was, now, N, w, src)
  {
    hide Written;
    if FullTurn(|src|, w, N) {
      PastTheEnd(was, now, N, w % N, src);
    } else {
      WrittenUnwrapped(was[..N], w, src);
      InsideHalf(was, now, N, w % N, src);
    }
  }

  lemma PastTheEnd(was: seq<Byte>, now: seq<Byte>, N: nat, at: nat, src: seq<Byte>)
    requires |was| == 2 * N && |src| == N && at < N && now == was[..at] + src + was[at + N..]
    ensures now[..N] == was[..N][..at] + src[..N - at] && now[N..] == src[N - at..] + was[N..][at..]
  {
  }

  lemma TwoSegmentsIn(was: seq<Byte>, mid: seq<Byte>, now: seq<Byte>, N: nat, w: nat, src: seq<Byte>, part1: nat)
    requires 0 < N && |was| == 2 * N && |src| <= N && part1 == N - w % N && w % N + |src| >= N
    requires !FullTurn(|src|, w, N)
    requires mid == was[..w % N] + src[..part1] + was[w % N + part1..]
    requires now == mid[..0] + src[part1..] + mid[0 + |src[part1..]|..]
    ensures CopiedIn(was, now, N, w, src)
  {
    hide Written;
    TwoSegments(was[..N], w, src);
    InsideHalf(was, mid, N, w % N, src[..part1]);
    InsideHalf(mid, now, N, 0, src[part1..]);
    TwoChunks(was[..N], mid[..N], now[..N], src, part1, w % N);
  }

  /** A copy that ends inside the first half changes only that. */
  lemma InsideHalf(was: seq<Byte>, now: seq<Byte>, N: nat, at: nat, src: seq<Byte>)
    requires at + |src| <= N <= |was| && now == was[..at] + src + was[at + |src|..]
    ensures now[..N] == was[..N][..at] + src + was[..N][at + |src|..] && now[N..] == was[N..]
  {
  }

  /** Copies out of the ring in one or two segments. */
  method CopyOut(memory: array<Byte>, N: nat, offset: nat, size: nat, ghost sh: Shared) returns (r: seq<Byte>)
    requires 0 < N && memory.Length == 2 * N && size <= N
    requires sh.Valid() && sh.data == memory[..N] && sh.behind == memory[N..]
    ensures forall info :: r == Content(sh, Entry(info, offset, size))
  {
    hide Stretch;
    var begin, end := offset % N, (offset + size) % N;
    EndSlot(offset, size, N);
    ghost var all := memory[..];
    assert sh.data == all[..N] && sh.behind == all[N..];
    if begin <= end {
      OneSegmentExactly(offset, size, N);
      r := memory[begin..begin + size];
      assert r == all[begin..begin + size];
      OneSegmentOut(all, N, offset, size, sh);
    } else {
      r := memory[begin..N] + memory[..end];
      assert r == all[begin..N] + all[..end];
      TwoSegmentsOut(all, N, offset, size, end, sh);
    }
  }

  lemma OneSegmentOut(all: seq<Byte>, N: nat, offset: nat, size: nat, sh: Shared)
    requires 0 < N && |all| == 2 * N && size <= N && (FullTurn(size, offset, N) || offset % N + size <= N)
    requires sh.Valid() && sh.data == all[..N] && sh.behind == all[N..]
    ensures var at := offset % N; all[at..at + size] == Stretch(sh, offset, size, size)
  {
    var at := offset % N;
    var a, b := all[at..at + size], Stretch(sh, offset, size, size);
    forall k | 0 <= k < size
      ensures a[k] == b[k]
    {
      EndSlot(offset, k, N);
    }
  }

  lemma TwoSegmentsOut(all: seq<Byte>, N: nat, offset: nat, size: nat, end: nat, sh: Shared)
    requires 0 < N && |all| == 2 * N && size <= N && offset % N + size >= N && end == offset % N + size - N
    requires sh.Valid() && sh.data == all[..N] && sh.behind == all[N..] && !FullTurn(size, offset, N)
    ensures all[offset % N..N] + all[..end] == Stretch(sh, offset, size, size)
  {
    var a, b := all[offset % N..N] + all[..end], Stretch(sh, offset, size, size);
    forall k | 0 <= k < size
      ensures a[k] == b[k]
    {
      EndSlot(offset, k, N);
    }
  }

  class Memory {
    const desc: array<Entry>
    const size: nat              // of the data ring
    const memory: array<Byte>    // the data ring and as much behind it
    var write: Dual
    var read: Dual

    ghost predicate Valid()
      reads this
    {
      0 < desc.Length && 0 < size && memory.Length == 2 * size
    }

    ghost function State(): (sh: Shared)
      requires Valid()
      reads this, desc, memory
    {
      Shared(desc[..], memory[..size], memory[size..], write, read)
    }

    constructor (desc: array<Entry>, memory: array<Byte>, size: nat)
      requires 0 < desc.Length && 0 < size && memory.Length == 2 * size
      ensures Valid() && this.desc == desc && this.memory == memory && this.size == size
      ensures State() == Shared(desc[..], memory[..size], memory[size..], Dual(0, 0), Dual(0, 0))
    {
      this.desc, this.memory, this.size, write, read := desc, memory, size, Dual(0, 0), Dual(0, 0);
    }
  }

  class Transmitter {
    const sink: Memory
    var writeIndex: Dual
    var readIndexCached: Dual

    ghost function State(): (tx: Tx) reads this { Tx(writeIndex, readIndexCached) }

    constructor (sink: Memory)
      ensures this.sink == sink && State() == Tx(Dual(0, 0), Dual(0, 0))
    {
      this.sink, writeIndex, readIndexCached := sink, Dual(0, 0), Dual(0, 0);
    }

    method Put(item: Microslice) returns (ok: bool)
      requires sink.Valid() && InOrder(sink.State(), State())
      modifies this, sink`write, sink.desc, sink.memory
      ensures sink.Valid()
      ensures (sink.State(), State(), ok) == TryPut(old(sink.State()), old(State()), item)
    {
      hide Filled;
      if !HasRoom(item) {
        readIndexCached := sink.read;
      }
      if !HasRoom(item) {
        return false;
      }
      Fill(item);
      writeIndex := Dual(writeIndex.desc + 1, writeIndex.data + |item.content|);
      sink.write := writeIndex;
      return true;
    }

    /** Copies the content and writes the descriptor. */
    method Fill(item: Microslice)
      requires sink.Valid() && |item.content| <= sink.size
      modifies sink.desc, sink.memory
      ensures sink.State() == Filled(old(sink.State()), State(), item)
    {
      hide Written;
      CopyIn(sink.memory, sink.size, writeIndex.data, item.content);
      ghost var now := sink.memory[..];
      sink.desc[writeIndex.desc % sink.desc.Length] := Entry(item.info, writeIndex.data, |item.content|);
      assert sink.memory[..] == now;
    }

    predicate HasRoom(item: Microslice)
      reads this
    {
      && sink.desc.Length - writeIndex.desc + readIndexCached.desc >= 1
      && sink.size - writeIndex.data + readIndexCached.data >= |item.content|
    }
  }

  class Receiver {
    const source: Memory
    var writeIndexDesc: nat
    var readIndexDesc: nat

    ghost function State(): (rx: Rx) reads this { Rx(writeIndexDesc, readIndexDesc) }

    constructor (source: Memory)
      ensures this.source == source && State() == Rx(source.write.desc, source.read.desc)
    {
      this.source, writeIndexDesc, readIndexDesc := source, source.write.desc, source.read.desc;
    }

    method Get() returns (r: Option<Microslice>)
      requires source.Valid() && Readable(source.State(), State())
      modifies this, source`read
      ensures source.Valid()
      ensures (source.State(), State(), r) == TryGet(old(source.State()), old(State()))
    {
      hide Content;
      if writeIndexDesc <= readIndexDesc {
        writeIndexDesc := source.write.desc;
      }
      if writeIndexDesc > readIndexDesc {
        var e := source.desc[readIndexDesc % source.desc.Length];
        var content := CopyOut(source.memory, source.size, e.offset, e.size, source.State());
        assert content == Content(source.State(), Entry(e.info, e.offset, e.size));
        readIndexDesc := readIndexDesc + 1;
        source.read := Dual(readIndexDesc, e.offset + e.size);
        return Some(Microslice(e.info, content));
      }
      return None;
    }
  }
}
