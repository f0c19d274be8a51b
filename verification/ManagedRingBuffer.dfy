/** A ring with a write and a read index, both counting up without wrapping. */
module ManagedRingBuffer {
  import opened RingMath

  /** How far slot `j` lies ahead of position `w` in a ring of `size` slots. */
  function Ahead(j: nat, w: nat, size: nat): (d: nat)
    requires size > 0
    ensures d < size
  {
    (j - w) % size
  }

  lemma AheadIs(j: nat, w: nat, size: nat)
    requires j < size
    ensures Ahead(j, w, size) == if j >= w % size then j - w % size else j - w % size + size
  {
    var q, o := w / size, w % size;
    assert w == q * size + o;
    if j >= o {
      assert (-q) * size == -(q * size);
      RemainderUnique(j - w, size, -q, j - o);
    } else {
      assert (-q - 1) * size == -(q * size) - size;
      RemainderUnique(j - w, size, -q - 1, j - o + size);
    }
  }

  /** The ring after writing `src` at positions w, w+1, ...: slot by slot. */
  function Written<T>(buf: seq<T>, w: nat, src: seq<T>): (r: seq<T>)
    requires 0 < |buf| && |src| <= |buf|
    ensures |r| == |buf|
  {
    seq(|buf|, j requires 0 <= j < |buf| => var d := Ahead(j, w, |buf|); if d < |src| then src[d] else buf[j])
  }

  lemma WrittenUnwrapped<T>(buf: seq<T>, w: nat, src: seq<T>)
    requires 0 < |buf| && w % |buf| + |src| <= |buf|
    ensures var at := w % |buf|; Written(buf, w, src) == buf[..at] + src + buf[at + |src|..]
  {
    var at, r := w % |buf|, Written(buf, w, src);
    var t := buf[..at] + src + buf[at + |src|..];
    forall j | 0 <= j < |buf|
      ensures r[j] == t[j]
    {
      AheadIs(j, w, |buf|);
    }
  }

  lemma WrittenWrapped<T>(buf: seq<T>, w: nat, src: seq<T>)
    requires 0 < |buf| && |src| <= |buf| && w % |buf| + |src| > |buf|
    ensures var a := |buf| - w % |buf|;
            a <= |src| && Written(buf, w, src) == src[a..] + buf[|src| - a..|buf| - a] + src[..a]
  {
    var a, r := |buf| - w % |buf|, Written(buf, w, src);
    var t := src[a..] + buf[|src| - a..|buf| - a] + src[..a];
    forall j | 0 <= j < |buf|
      ensures r[j] == t[j]
    {
      AheadIs(j, w, |buf|);
    }
  }

  datatype Ring<T> = Ring(buf: seq<T>, write: nat, read: nat) {
    predicate Valid() { 0 < |buf| && read <= write <= read + |buf| }

    function Used(): (n: nat) requires Valid() { write - read }

    function Available(): (n: nat) requires Valid() { |buf| - Used() }

    function ToBorder(): (n: nat) requires 0 < |buf| { |buf| - write % |buf| }

    /** `n` entries can be stored in one stretch, here or from the start of the ring. */
    predicate CanPlace(n: nat) requires Valid()
    {
      (n <= ToBorder() && n <= Available()) || ToBorder() + n <= Available()
    }

    /** Some place at or behind the write index holds `n` entries without wrapping and without
        reaching what is not read. */
    ghost predicate HasPlace(n: nat) requires Valid()
    {
      exists w: nat :: write <= w && !Wraps(w, n, |buf|) && w + n <= read + |buf|
    }

    /** The longest stretch that can be stored. */
    function Contiguous(): (r: nat)
      requires Valid()
      ensures forall n: nat :: n <= r <==> CanPlace(n)
    {
      if Available() > ToBorder() then
        (if ToBorder() >= Available() - ToBorder() then ToBorder() else Available() - ToBorder())
      else Available()
    }

    /** Moves the write index to the border if `n` entries would wrap. */
    function Skipped(n: nat): (r: Ring<T>)
      requires Valid() && n <= |buf|
      ensures r.buf == buf && r.read == read && write <= r.write
      ensures LeastNonwrapping(write, n, |buf|, r.write)
      ensures r.write % |buf| + n <= |buf|
      ensures CanPlace(n) ==> r.write + n <= read + |buf|
    {
      BorderIsLeast(write, n, |buf|);
      if write % |buf| + n > |buf| then Ring(buf, write + (|buf| - write % |buf|), read) else this
    }

    function Appended(src: seq<T>): (r: Ring<T>)
      requires 0 < |buf| && |src| <= |buf|
    {
      Ring(Written(buf, write, src), write + |src|, read)
    }

    function AppendedOne(item: T): (r: Ring<T>)
      requires 0 < |buf|
    {
      Ring(buf[write % |buf| := item], write + 1, read)
    }
  }

  /** Appending one entry. */
  lemma AppendedSingle<T>(r: Ring<T>, item: T)
    requires 0 < |r.buf|
    ensures r.Appended([item]) == r.AppendedOne(item)
  {
    WrittenUnwrapped(r.buf, r.write, [item]);
  }

  /** The two cases of `CanPlace` miss no place. */
  lemma CanPlaceExactly<T>(r: Ring<T>, n: nat)
    requires r.Valid()
    ensures r.CanPlace(n) <==> r.HasPlace(n)
  {
    var size := |r.buf|;
    if n <= size {
      BorderIsLeast(r.write, n, size);
      if r.CanPlace(n) {
        assert !Wraps(r.Skipped(n).write, n, size);
      }
    }
  }

  lemma CanPlaceAll<T>(r: Ring<T>)
    requires r.Valid()
    ensures forall n: nat :: r.CanPlace(n) <==> r.HasPlace(n)
  {
    forall n: nat
      ensures r.CanPlace(n) <==> r.HasPlace(n)
    {
      CanPlaceExactly(r, n);
    }
  }

  lemma DrainedIs<T>(r: Ring<T>, n: nat)
    requires r.Valid() && r.read == r.write
    ensures r.CanPlace(n) <==> DrainedFits(|r.buf|, r.write, n)
  {
  }

  // ---- in place ------------------------------------------------------------------------

  method CopyInto<T>(buf: array<T>, at: nat, src: seq<T>)
    requires at + |src| <= buf.Length
    modifies buf
    ensures buf[..] == old(buf[..])[..at] + src + old(buf[..])[at + |src|..]
  {
    ghost var was := buf[..];
    for k := 0 to |src|
      invariant buf[..] == was[..at] + src[..k] + was[at + k..]
    {
      buf[at + k] := src[k];
    }
    assert src[..|src|] == src;
  }

  /** Copies up to the border and then from the start. */
  method CopySegments<T>(data: array<T>, begin: nat, src: seq<T>)
    requires begin < data.Length <= begin + |src| && |src| <= data.Length
    modifies data
    ensures var was, a := old(data[..]), data.Length - begin;
            data[..] == src[a..] + was[|src| - a..|was| - a] + src[..a]
  {
    var part1 := data.Length - begin;
    ghost var was := data[..];
    CopyInto(data, begin, src[..part1]);
    ghost var mid := data[..];
    assert mid == was[..begin] + src[..part1];
    CopyInto(data, 0, src[part1..]);
    TwoChunks(was, mid, data[..], src, part1, begin);
  }

  /** One chunk, or two around the border. */
  method AppendAt<T>(buf: array<T>, w: nat, src: seq<T>)
    requires buf.Length > 0 && |src| <= buf.Length
    modifies buf
    ensures buf[..] == Written(old(buf[..]), w, src)
  {
    hide Written;
    var size, n := buf.Length, |src|;
    var at := w % size;
    if at + n <= size {
      WrittenUnwrapped(buf[..], w, src);
      CopyInto(buf, at, src);
    } else {
      WrittenWrapped(buf[..], w, src);
      CopySegments(buf, at, src);
    }
  }

  class RingBuffer<T> {
    const buf: array<T>
    var writeIndex: nat
    var readIndex: nat

    ghost predicate Valid() reads this, buf { State().Valid() }

    ghost function State(): (r: Ring<T>) reads this, buf { Ring(buf[..], writeIndex, readIndex) }

    constructor (buf: array<T>)
      requires buf.Length > 0
      ensures Valid() && this.buf == buf && State() == Ring(buf[..], 0, 0)
    {
      this.buf, writeIndex, readIndex := buf, 0, 0;
    }

    function SizeAvailable(): (n: nat)
      reads this, buf
      requires Valid()
      ensures n == State().Available()
    {
      buf.Length - (writeIndex - readIndex)
    }

    method SetReadIndex(n: nat)
      modifies this`readIndex
      ensures State() == old(State()).(read := n)
    {
      readIndex := n;
    }

    /** The longest stretch that can be stored: `n` entries fit exactly if it is at least `n`. */
    function SizeAvailableContiguous(): (r: nat)
      reads this, buf
      requires Valid()
      ensures r == State().Contiguous()
      ensures forall n: nat :: n <= r <==> State().HasPlace(n)
    {
      CanPlaceAll(State());
      var toBorder := buf.Length - writeIndex % buf.Length;
      if SizeAvailable() > toBorder then
        (if toBorder >= SizeAvailable() - toBorder then toBorder else SizeAvailable() - toBorder)
      else SizeAvailable()
    }

    method Append(src: seq<T>)
      requires Valid() && |src| <= State().Available()
      modifies this`writeIndex, buf
      ensures Valid() && State() == old(State()).Appended(src)
    {
      hide Written;
      AppendAt(buf, writeIndex, src);
      writeIndex := writeIndex + |src|;
    }

    method SkipBufferWrap(n: nat)
      requires Valid() && n <= State().Available()
      modifies this`writeIndex
      ensures State() == old(State()).Skipped(n) && LeastNonwrapping(old(writeIndex), n, buf.Length, writeIndex)
      ensures old(State()).CanPlace(n) ==> Valid() && n <= State().Available() && n <= State().ToBorder()
    {
      var size := buf.Length;
      var offset := writeIndex % size;
      if offset + n > size {
        writeIndex := writeIndex + (size - offset);
      }
    }
  }

  lemma TwoChunks<T>(was: seq<T>, mid: seq<T>, now: seq<T>, src: seq<T>, a: nat, at: nat)
    requires at + a == |was| && a <= |src| <= |was| && mid == was[..at] + src[..a]
    requires now == mid[..0] + src[a..] + mid[0 + |src[a..]|..]
    ensures now == src[a..] + was[|src| - a..|was| - a] + src[..a]
  {
  }
}
