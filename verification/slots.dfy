/**
 Sequence numbers and the physical cells of a ring.

 The ring maps an unbounded sequence number onto one of `size` cells by taking
 its remainder modulo `size`. Go's `%` truncates toward zero; on the
 non-negative sequence numbers a ring ever uses it is the ordinary remainder,
 which is defined here by repeated subtraction of whole laps so that every fact
 about cells follows by induction over laps.
 */
module Slots {

  /** The cell that holds sequence number `s` in a ring of `size` cells. */
  function Slot(s: int, size: int): (j: nat)
    requires 0 <= s && 0 < size
    ensures j < size
    ensures j <= s
    ensures s < size ==> j == s
    decreases s
  {
    if s < size then s else Slot(s - size, size)
  }

  /** Sequence numbers exactly one lap apart share a cell. */
  lemma SlotLap(s: int, size: int)
    requires 0 <= s && 0 < size
    ensures Slot(s + size, size) == Slot(s, size)
  {
  }

  /** Sequence numbers less than one lap apart never share a cell. */
  lemma {:induction false} SlotsDistinct(a: int, b: int, size: int)
    requires 0 <= a < b < a + size
    ensures Slot(a, size) != Slot(b, size)
    decreases a
  {
    if a >= size {
      SlotsDistinct(a - size, b - size, size);
    } else if b >= size {
      assert Slot(b, size) == Slot(b - size, size) == b - size;
    }
  }

  /** Every cell `j` below `n` is the cell of some sequence number in the last lap `[n - size, n)`. */
  lemma {:induction false} LastLapCovers(j: int, n: int, size: int) returns (s: int)
    requires 0 <= j < size && j < n
    ensures 0 <= s < n && n - size <= s
    ensures Slot(s, size) == j
    decreases n
  {
    if n - size <= j {
      s := j;
    } else {
      var t := LastLapCovers(j, n - size, size);
      s := t + size;
      SlotLap(t, size);
    }
  }

  /** Repeated lap subtraction leaves a whole number `q` of laps behind: `s == q * size + Slot(s, size)`. */
  lemma {:induction false} SlotQuot(s: int, size: int) returns (q: nat)
    requires 0 <= s && 0 < size
    ensures s == q * size + Slot(s, size)
    decreases s
  {
    if s < size {
      q := 0;
    } else {
      var q' := SlotQuot(s - size, size);
      q := q' + 1;
      assert q * size == q' * size + size;
    }
  }

  /** A positive number of laps is at least one lap. */
  lemma {:induction false} MulGe(d: int, size: int)
    requires 1 <= d && 0 < size
    ensures d * size >= size
    decreases d
  {
    if d > 1 {
      MulGe(d - 1, size);
      assert d * size == (d - 1) * size + size;
    }
  }

  /** A remainder below `size` of some whole number of laps is the remainder `%` computes. */
  lemma ModUnique(s: int, size: int, q: int, r: int)
    requires 0 < size && 0 <= r < size && s == q * size + r
    ensures r == s % size
  {
    var q2, r2 := s / size, s % size;
    assert (q - q2) * size == r2 - r;
    if q > q2 {
      MulGe(q - q2, size);
    } else if q < q2 {
      MulGe(q2 - q, size);
    }
  }

  /**
   `Slot` is the remainder modulo `size`; on the non-negative sequence numbers
   the ring uses, that is also what Go's truncating `%` computes.
   */
  lemma SlotIsMod(s: int, size: int)
    requires 0 <= s && 0 < size
    ensures Slot(s, size) == s % size
  {
    var q := SlotQuot(s, size);
    ModUnique(s, size, q, Slot(s, size));
  }
}
