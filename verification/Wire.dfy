/** What travels between an input node and a compute node, and the history of what was sent. */
module Wire {
  import opened RingMath

  type Byte = x: int | 0 <= x < 256

  datatype Option<+T> = None | Some(value: T)

  /** Arithmetic on 64-bit unsigned counters is modulo this. */
  const WORD := 0x1_0000_0000_0000_0000

  const MICROSLICE_DESCRIPTOR_BYTES := 32

  /** A pair of compute node buffer positions. */
  datatype Position = Position(data: nat, desc: nat)

  /** Status message from an input node: its write pointers. */
  datatype InputStatus = InputStatus(wp: Position, abort: bool, final: bool)

  /** Status message from a compute node: its acknowledge pointers. */
  datatype NodeStatus = NodeStatus(ack: Position, requestAbort: bool, final: bool)

  /** Timeslice component descriptor, as stored in the compute node's descriptor ring. */
  datatype Descriptor = Descriptor(tsNum: nat, offset: nat, size: nat, numMicroslices: nat)

  /** One work request on the reliable connection towards the compute node. */
  datatype Packet =
    | DataWrite(addr: nat, bytes: seq<Byte>)
    | DescWrite(slot: nat, desc: Descriptor)
    | Status(msg: InputStatus)

  /** Sizes of the remote rings, as exponents of two. */
  datatype Rings = Rings(descExp: nat, dataExp: nat) {
    predicate Valid() { descExp < 64 && dataExp < 64 }
    function DescSize(): (r: nat) ensures r >= 1 { Pow2(descExp) }
    function DataSize(): (r: nat) ensures r >= 1 { Pow2(dataExp) }
  }

  lemma RingFitsWord(exp: nat)
    requires exp < 64
    ensures Pow2(exp) < WORD == Pow2(64)
  {
    Pow2Monotone(exp, 63);
    Pow2Is(63);
    assert Pow2(64) == 2 * Pow2(63);
  }

  lemma {:induction false} Pow2Monotone(a: nat, b: nat)
    requires a <= b
    ensures Pow2(a) <= Pow2(b)
  {
    if a < b {
      Pow2Monotone(a, b - 1);
    }
  }

  lemma Pow2Is(n: nat)
    requires n == 63
    ensures Pow2(n) == 0x8000_0000_0000_0000
  {
    assert Pow2(8) == 0x100;
    assert Pow2(16) == 0x1_0000;
    assert Pow2(24) == 0x100_0000;
    assert Pow2(32) == 0x1_0000_0000;
    assert Pow2(40) == 0x100_0000_0000;
    assert Pow2(48) == 0x1_0000_0000_0000;
    assert Pow2(56) == 0x100_0000_0000_0000;
  }

  /** One timeslice component as the input node sent it: history, not protocol state. */
  datatype Component = Component(tsNum: nat, offset: nat, payload: seq<Byte>, numMicroslices: nat) {
    function End(): nat { offset + |payload| }

    function Desc(): Descriptor { Descriptor(tsNum, offset, |payload|, numMicroslices) }

    function DataPacket(r: Rings): Packet { DataWrite(offset % r.DataSize(), payload) }

    function DescPacket(pos: nat, r: Rings): Packet { DescWrite(pos % r.DescSize(), Desc()) }
  }

  /** The write pointers after the first `n` components. */
  ghost function WpAt(sent: seq<Component>, n: nat): (r: Position)
    requires n <= |sent|
  {
    Position(if n == 0 then 0 else sent[n - 1].End(), n)
  }

  /** Components follow one another without overlap. */
  ghost predicate Ordered(sent: seq<Component>)
  {
    forall p {:trigger WpAt(sent, p)} :: 0 <= p < |sent| ==> WpAt(sent, p).data <= sent[p].offset
  }

  /** No component wraps around the data ring. */
  ghost predicate Unwrapped(sent: seq<Component>, r: Rings)
  {
    forall p :: 0 <= p < |sent| ==> FitsAt(sent[p], r)
  }

  ghost predicate FitsAt(c: Component, r: Rings)
  {
    c.offset % r.DataSize() + |c.payload| <= r.DataSize()
  }

  /** Descriptor slot `p` holds what was sent. */
  ghost predicate SlotHolds(desc: seq<Descriptor>, sent: seq<Component>, p: nat)
  {
    p < |sent| && |desc| > 0 && desc[p % |desc|] == sent[p].Desc()
  }

  /** The data bytes of component `p` lie in one unwrapped stretch and are what was sent. */
  ghost predicate BytesHold(data: seq<Byte>, sent: seq<Component>, p: nat)
  {
    && p < |sent| && |data| > 0
    && var at := sent[p].offset % |data|;
       at + |sent[p].payload| <= |data| && data[at..at + |sent[p].payload|] == sent[p].payload
  }

  /** Later components lie behind earlier ones. */
  lemma {:induction false} WpMonotone(sent: seq<Component>, a: nat, b: nat)
    requires Ordered(sent) && a <= b <= |sent|
    ensures WpAt(sent, a).data <= WpAt(sent, b).data
    decreases b - a
  {
    if a < b {
      WpMonotone(sent, a + 1, b);
    }
  }
}
