/**
  AcknowledgedCounterGenerator: values are acknowledged in any order, and Last() is the largest value
  up to which all of them have been. Acknowledgements above it live in a ring of bits.
 */
module AckWindow {
  const WINDOW_SIZE: nat := 65536

  /** value & kWindowMask, for a window size that is a power of two. */
  function Slot(v: int): (s: nat)
    ensures s < WINDOW_SIZE
  {
    v % WINDOW_SIZE
  }

  lemma SlotPeriod(v: int)
    ensures Slot(v + WINDOW_SIZE) == Slot(v)
  {
  }

  lemma SlotDistinct(u: int, v: int)
    requires u < v < u + WINDOW_SIZE
    ensures Slot(u) != Slot(v)
  {
  }

  /** Everything from start to l is acknowledged, and l + 1 is not. */
  ghost predicate IsLast(start: int, acked: set<int>, l: int) {
    start - 1 <= l && (forall v :: start <= v <= l ==> v in acked) && l + 1 !in acked
  }

  /** So l is the largest such value. */
  lemma LastIsLargest(start: int, acked: set<int>, l: int, m: int)
    requires IsLast(start, acked, l) && start - 1 <= m && forall v :: start <= v <= m ==> v in acked
    ensures m <= l
  {
  }

  /**
    The value that the ring takes v for: the one of the same slot among the next WINDOW_SIZE values above
    the limit.
   */
  function Alias(v: int, limit: int): (a: int)
    ensures limit < a <= limit + WINDOW_SIZE && Slot(a) == Slot(v)
  {
    var a := limit + 1 + (v - limit - 1) % WINDOW_SIZE;
    SlotShift(v, limit);
    a
  }

  lemma SlotShift(v: int, limit: int)
    ensures Slot(limit + 1 + (v - limit - 1) % WINDOW_SIZE) == Slot(v)
  {
    var q := (v - limit - 1) / WINDOW_SIZE;
    assert v == limit + 1 + (v - limit - 1) % WINDOW_SIZE + q * WINDOW_SIZE;
    SlotPeriods(limit + 1 + (v - limit - 1) % WINDOW_SIZE, q);
  }

  lemma SlotPeriods(v: int, q: int)
    ensures Slot(v + q * WINDOW_SIZE) == Slot(v)
  {
  }

  /** A value inside the window is taken for itself. */
  lemma AliasInside(v: int, limit: int)
    requires limit < v <= limit + WINDOW_SIZE
    ensures Alias(v, limit) == v
  {
    var a := Alias(v, limit);
    if a < v { SlotDistinct(a, v); } else if v < a { SlotDistinct(v, a); }
  }

  class AcknowledgedCounter {
    const start: int
    const window: array<bool>
    var limit: int
    /** Every value that has been taken for acknowledged so far. */
    ghost var acked: set<int>

    /** All values up to the limit are acknowledged, and the ring agrees with those above it. */
    ghost predicate Sound()
      reads this, window
    {
      && window.Length == WINDOW_SIZE && start - 1 <= limit
      && (forall v :: start <= v <= limit ==> v in acked)
      && (forall v :: v in acked ==> start <= v <= limit + WINDOW_SIZE)
      && (forall v {:trigger Slot(v)} :: limit < v <= limit + WINDOW_SIZE ==> (window[Slot(v)] <==> v in acked))
    }

    /** As long as only values inside the window come, the limit is exact as well. */
    ghost predicate Valid()
      reads this, window
    {
      Sound() && IsLast(start, acked, limit) && forall v :: v in acked ==> v < limit + WINDOW_SIZE
    }

    constructor (start: int)
      ensures Valid() && fresh(window) && this.start == start && acked == {} && limit == start - 1
    {
      this.start := start;
      limit := start - 1;
      window := new bool[WINDOW_SIZE](_ => false);
      acked := {};
    }

    method Last() returns (l: int)
      requires Sound()
      ensures forall v :: start <= v <= l ==> v in acked
      ensures Valid() ==> IsLast(start, acked, l)
    {
      l := limit;
    }

    /** The bits of the values from i to the end of the window, and the cleared ones below. */
    ghost predicate RingFrom(i: int, base: int)
      reads this, window
    {
      && window.Length == WINDOW_SIZE
      && (forall v {:trigger Slot(v)} :: i <= v <= base + WINDOW_SIZE ==> (window[Slot(v)] <==> v in acked))
      && (forall v {:trigger Slot(v)} :: base < v < i ==> !window[Slot(v)])
    }

    /**
      A value is taken for the one of its slot above the limit, and refused exactly when that one has
      been acknowledged before. A value inside the window is taken for itself, and then the limit stays
      exact. In general it does, unless all of the next WINDOW_SIZE values are acknowledged: the scan
      stops one short of the last of them.
     */
    method Acknowledge(value: int) returns (ok: bool)
      requires Sound()
      modifies this`limit, this`acked, window
      ensures Sound() && limit >= old(limit) && acked == old(acked) + {Alias(value, old(limit))}
      ensures ok <==> Alias(value, old(limit)) !in old(acked)
      ensures !ok ==> limit == old(limit) && window[..] == old(window[..])
      ensures ok ==> (limit + 1 in acked <==> forall v :: old(limit) < v <= old(limit) + WINDOW_SIZE ==> v in acked)
      ensures old(limit) < value < old(limit) + 65536 ==>
              acked == old(acked) + {value} && (ok <==> value !in old(acked)) && (old(Valid()) ==> Valid())
    {
      ghost var v := Alias(value, limit);
      if limit < value < limit + WINDOW_SIZE { AliasInside(value, limit); }
      if window[Slot(value)] { return false; }
      ok := true;
      MarkBit(value, v);
      var i := Scan();
      RingMoves(i);
      limit := i - 1;
    }

    /** Clears the bits that follow the limit, up to the first one that is not set or the end of the window. */
    method Scan() returns (i: int)
      requires RingFrom(limit + 1, limit) && forall u :: start <= u <= limit ==> u in acked
      modifies window
      ensures limit < i <= limit + WINDOW_SIZE && RingFrom(i, limit)
      ensures (forall u :: start <= u < i ==> u in acked) && (i < limit + WINDOW_SIZE ==> i !in acked)
    {
      i := limit + 1;
      while i < limit + WINDOW_SIZE
        invariant limit < i <= limit + WINDOW_SIZE && RingFrom(i, limit)
        invariant forall u :: start <= u < i ==> u in acked
      {
        if !window[Slot(i)] { break; }
        ClearBit(i);
        i := i + 1;
      }
    }

    method MarkBit(value: int, ghost v: int)
      requires Sound() && v == Alias(value, limit)
      modifies this`acked, window
      ensures acked == old(acked) + {v} && RingFrom(limit + 1, limit)
    {
      forall u | limit < u <= limit + WINDOW_SIZE && u != v ensures Slot(u) != Slot(v) {
        if u < v { SlotDistinct(u, v); } else { SlotDistinct(v, u); }
      }
      window[Slot(value)] := true;
      acked := acked + {v};
    }

    method ClearBit(i: int)
      requires limit < i < limit + WINDOW_SIZE && RingFrom(i, limit)
      modifies window
      ensures RingFrom(i + 1, limit)
    {
      forall v | limit < v <= limit + WINDOW_SIZE && v != i ensures Slot(v) != Slot(i) {
        if v < i { SlotDistinct(v, i); } else { SlotDistinct(i, v); }
      }
      window[Slot(i)] := false;
    }

    /** Seen from the new limit, the cleared bits are those of the values that enter the window. */
    lemma RingMoves(i: int)
      requires limit < i <= limit + WINDOW_SIZE && RingFrom(i, limit)
      requires forall v :: v in acked ==> v <= limit + WINDOW_SIZE
      ensures forall v {:trigger Slot(v)} :: i <= v <= i - 1 + WINDOW_SIZE ==> (window[Slot(v)] <==> v in acked)
    {
      forall v | i <= v <= i - 1 + WINDOW_SIZE ensures window[Slot(v)] <==> v in acked {
        if v > limit + WINDOW_SIZE { SlotPeriod(v - WINDOW_SIZE); }
      }
    }
  }
}
