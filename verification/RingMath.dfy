/** Index arithmetic of power-of-two rings: a position `n` lives in slot `n % size`,
    which is what masking with `size - 1` computes. */
module RingMath {

  function Pow2(n: nat): (r: nat)
    ensures r >= 1
  {
    if n == 0 then 1 else 2 * Pow2(n - 1)
  }

  /** A multiple of `size` other than zero is at least `size` away from zero. */
  lemma MultipleBounds(k: int, size: int)
    requires size > 0
    ensures k >= 1 ==> k * size >= size
    ensures k >= 2 ==> k * size >= 2 * size
    ensures k <= -1 ==> k * size <= -size
  {
    if k >= 1 {
      assert k * size == size + (k - 1) * size;
    }
    if k >= 2 {
      assert (k - 1) * size == size + (k - 2) * size;
    }
    if k <= -1 {
      assert k * size == -size + (k + 1) * size;
    }
  }

  /** Two positions less than one ring apart share a slot only if they are equal. */
  lemma SlotsDistinct(a: int, b: int, size: int)
    requires size > 0
    requires a % size == b % size
    requires -size < a - b < size
    ensures a == b
  {
    var qa, qb := a / size, b / size;
    assert a == qa * size + a % size && b == qb * size + b % size;
    assert a - b == (qa - qb) * size by {
      assert (qa - qb) * size == qa * size - qb * size;
    }
    MultipleBounds(qa - qb, size);
  }

  /** A position and its successor one full ring later share a slot. */
  lemma SlotPeriodic(a: int, size: int)
    requires size > 0
    ensures (a + size) % size == a % size
  {
    var q := a / size;
    assert a + size == (q + 1) * size + a % size;
    RemainderUnique(a + size, size, q + 1, a % size);
  }

  lemma RemainderUnique(n: int, size: int, q: int, r: int)
    requires size > 0 && 0 <= r < size
    requires n == q * size + r
    ensures n % size == r && n / size == q
  {
    var q', r' := n / size, n % size;
    assert n == q' * size + r';
    assert (q - q') * size == r' - r by {
      assert (q - q') * size == q * size - q' * size;
    }
    MultipleBounds(q - q', size);
  }

  /** Unwrapped stretches that follow one another inside one ring length do not overlap
      in the ring. */
  lemma StretchesDisjoint(a: nat, la: nat, b: nat, lb: nat, size: nat)
    requires size > 0
    requires a + la <= b && b + lb <= a + size
    requires a % size + la <= size && b % size + lb <= size
    ensures a % size + la <= b % size || b % size + lb <= a % size
  {
    var ra, rb := a % size, b % size;
    var k := b / size - a / size;
    assert b - a == k * size + rb - ra by {
      assert a == (a / size) * size + ra && b == (b / size) * size + rb;
      assert k * size == (b / size) * size - (a / size) * size;
    }
    MultipleBounds(k, size);
    assert k == 0 ==> k * size == 0;
    assert k == 1 ==> k * size == size;
  }

  /** `n` entries from position `at` on go past the end of the ring. */
  predicate Wraps(at: nat, n: nat, ring: nat)
    requires ring > 0
  {
    at % ring + n > ring
  }

  /** `to` is the first position at or behind `from` from which `n` entries do not wrap. */
  ghost predicate LeastNonwrapping(from: nat, n: nat, ring: nat, to: nat)
    requires ring > 0
  {
    from <= to && !Wraps(to, n, ring) && forall k: nat :: from <= k < to ==> Wraps(k, n, ring)
  }

  /** From a position where they wrap, the end of the ring is the first one where they do not. */
  lemma BorderIsLeast(from: nat, n: nat, ring: nat)
    requires n <= ring && ring > 0
    ensures LeastNonwrapping(from, n, ring, if Wraps(from, n, ring) then from + (ring - from % ring) else from)
  {
    if Wraps(from, n, ring) {
      var q, at := from / ring, from % ring;
      assert (q + 1) * ring == q * ring + ring;
      RemainderUnique(from + (ring - at), ring, q + 1, 0);
      forall k: nat | from <= k < from + (ring - at)
        ensures Wraps(k, n, ring)
      {
        RemainderUnique(k, ring, q, at + (k - from));
      }
    }
  }

  /** In a drained ring a stretch of up to half the ring, rounded up, always fits, a longer one
      only at some positions: where it does not fit it never will. */
  lemma DrainedFitsExactly(size: nat, n: nat)
    requires size > 0
    ensures (forall w: nat :: DrainedFits(size, w, n)) <==> n <= (size + 1) / 2
  {
    if n > (size + 1) / 2 {
      var w := size / 2;
      RemainderUnique(w, size, 0, w);
      assert !DrainedFits(size, w, n);
    }
  }

  predicate DrainedFits(size: nat, w: nat, n: nat)
    requires size > 0
  {
    var border := size - w % size;
    n <= border || n <= size - border
  }

  /** Rounding up to a power of two by counting shifts, as the ring allocator does. */
  method SizeExponent(minimumSize: nat) returns (exponent: nat)
    ensures Pow2(exponent) >= minimumSize
    ensures exponent > 0 ==> Pow2(exponent - 1) < minimumSize
  {
    exponent := 0;
    if minimumSize > 1 {
      var rest := minimumSize - 1;
      exponent := exponent + 1;
      rest := rest / 2;
      while rest != 0
        invariant exponent >= 1
        invariant rest == BitsLeft(minimumSize - 1, exponent)
        invariant BitsLeft(minimumSize - 1, exponent - 1) > 0
        decreases rest
      {
        BitsLeftNext(minimumSize - 1, exponent);
        rest := rest / 2;
        exponent := exponent + 1;
      }
      BitsLeftZero(minimumSize - 1, exponent);
      BitsLeftZero(minimumSize - 1, exponent - 1);
    }
  }

  /** `n` shifted right `k` times. */
  ghost function BitsLeft(n: nat, k: nat): (r: nat)
  {
    if k == 0 then n else BitsLeft(n / 2, k - 1)
  }

  lemma {:induction false} BitsLeftNext(n: nat, k: nat)
    ensures BitsLeft(n, k + 1) == BitsLeft(n, k) / 2
  {
    if k > 0 {
      BitsLeftNext(n / 2, k - 1);
    }
  }

  lemma {:induction false} BitsLeftZero(n: nat, k: nat)
    ensures BitsLeft(n, k) == 0 <==> n < Pow2(k)
  {
    if k > 0 {
      BitsLeftZero(n / 2, k - 1);
    }
  }
}
