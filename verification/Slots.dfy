/** Position-to-slot arithmetic of the list ring (f1srv/listring.go, f1srv/listwindow.go). */
module Slots {
  import opened Digits

  /** Powers of two, the capacities a ring may have. */
  predicate IsPow2(n: int)
  {
    n == 1 || (n > 1 && n % 2 == 0 && IsPow2(n / 2))
  }

  /** The slot of a position in a ring of `cap` slots: the position brought into range by whole
      turns of the ring. */
  function Slot(pos: int, cap: int): (i: int)
    requires cap > 0
    ensures 0 <= i < cap
    decreases if pos < 0 then cap - pos else pos
  {
    if pos < 0 then Slot(pos + cap, cap)
    else if pos < cap then pos
    else Slot(pos - cap, cap)
  }

  lemma {:induction false} BothTurn(p: int, cap: int)
    requires IsPow2(cap)
    ensures Both(p + cap, cap - 1) == Both(p, cap - 1)
    ensures 0 <= p < cap ==> Both(p, cap - 1) == p
    decreases cap
  {
    if cap > 1 {
      assert (p + cap) / 2 == p / 2 + cap / 2 && (cap - 1) / 2 == cap / 2 - 1;
      BothTurn(p / 2, cap / 2);
    }
  }

  /** Masking with `cap - 1` picks the slot of any position, negative ones included. */
  lemma {:induction false} MaskIsSlot(pos: int, cap: int)
    requires IsPow2(cap)
    ensures Both(pos, cap - 1) == Slot(pos, cap)
    decreases if pos < 0 then cap - pos else pos
  {
    if pos < 0 {
      BothTurn(pos, cap);
      MaskIsSlot(pos + cap, cap);
    } else if pos < cap {
      BothTurn(pos, cap);
    } else {
      BothTurn(pos - cap, cap);
      MaskIsSlot(pos - cap, cap);
    }
  }

  /** The slot of a position in a ring of `cap` slots, by masking. */
  function Masked(pos: int, cap: int): (i: int)
    requires IsPow2(cap)
    ensures i == Slot(pos, cap)
  {
    MaskIsSlot(pos, cap);
    Both(pos, cap - 1)
  }

  /** Two positions less than a capacity apart never share a slot. */
  lemma {:induction false} SlotInjective(p: int, q: int, cap: int)
    requires cap > 0 && p < q < p + cap
    ensures Slot(p, cap) != Slot(q, cap)
    decreases if p < 0 then cap - p else p
  {
    if p < 0 && q < 0 {
      SlotInjective(p + cap, q + cap, cap);
    } else if p >= cap {
      SlotInjective(p - cap, q - cap, cap);
    }
  }

  lemma SlotsDistinct(lo: int, cap: int)
    requires cap > 0
    ensures forall p, q {:trigger Slot(p, cap), Slot(q, cap)} ::
              lo <= p < q < lo + cap ==> Slot(p, cap) != Slot(q, cap)
  {
    forall p, q | lo <= p < q < lo + cap ensures Slot(p, cap) != Slot(q, cap) {
      SlotInjective(p, q, cap);
    }
  }

  /** Consecutive positions take consecutive slots until the ring's end. */
  lemma {:induction false} SlotAfter(p: int, k: nat, cap: int)
    requires cap > 0 && Slot(p, cap) + k < cap
    ensures Slot(p + k, cap) == Slot(p, cap) + k
    decreases if p < 0 then cap - p else p
  {
    if p < 0 {
      SlotAfter(p + cap, k, cap);
    } else if p >= cap {
      SlotAfter(p - cap, k, cap);
    }
  }

  /** A run of positions that does not wrap still does not wrap from its middle. */
  lemma SlotInRun(p: int, q: int, end: int, cap: int)
    requires cap > 0 && p <= q < end <= p + cap - Slot(p, cap)
    ensures q + 1 < end ==> end <= q + 1 + cap - Slot(q + 1, cap)
  {
    if q + 1 < end {
      SlotAfter(p, q + 1 - p, cap);
    }
  }

  lemma {:induction false} SlotRunBelow(p: int, k: nat, cap: int)
    requires cap > 0 && k <= Slot(p, cap)
    ensures Slot(p - k, cap) == Slot(p, cap) - k
    decreases if p < 0 then cap - p else p
  {
    if p < 0 {
      SlotRunBelow(p + cap, k, cap);
    } else if p >= cap {
      SlotRunBelow(p - cap, k, cap);
    }
  }
}
