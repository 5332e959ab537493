/** The resident element deque of a hot list: a power-of-two ring of byte slices indexed by
    position modulo the capacity (f1srv/listring.go).

    A slot refers to a heap buffer, so the sharing questions the ring's design turns on (in-place
    reuse on `Put`, pointer moves on `Move`, detaching on `TakeSlot`) are questions about this heap.
    `view` is the value the ring stands for, slot by slot. */
module ListRing {
  import opened Digits
  import opened Bytes
  import opened Slots
  import opened Scan

  /** The backing array of one byte slice: a fixed room and the bytes currently stored in it. */
  class Buffer {
    const room: nat
    var data: Bytes

    constructor (v: Bytes, room: nat)
      ensures data == v && this.room == room
    {
      this.room := room;
      data := v;
    }
  }

  /** The signature pair a resident scan filters on.  Nothing below depends on how the two bytes are
      mixed, so the ring is proved for every pair of functions. */
  datatype Signatures = Signatures(first: Bytes -> Byte, second: Bytes -> Byte)

  /** The content a ring view holds for a position. */
  ghost function At(view: seq<Option<Bytes>>, pos: int): (content: Option<Bytes>)
    requires |view| > 0
  {
    view[Slot(pos, |view|)]
  }

  /** A move of the slice at `src` to `dst`. */
  ghost function MovedTo(view: seq<Option<Bytes>>, dst: int, src: int): (v: seq<Option<Bytes>>)
    requires |view| > 0
  {
    var i, j := Slot(dst, |view|), Slot(src, |view|);
    if i == j then view else view[i := view[j]][j := None]
  }

  /** The slide up of a run ending at `hi`, down to position p. */
  ghost predicate ShiftingUp(v0: seq<Option<Bytes>>, v: seq<Option<Bytes>>, p: int, hi: int)
    requires |v| == |v0| > 0
  {
    && (forall q :: p < q < hi ==> At(v, q + 1) == At(v0, q))
    && (forall q :: hi + 1 - |v| <= q <= p ==> At(v, q) == At(v0, q))
  }

  lemma ShiftUpEnds(v0: seq<Option<Bytes>>, v: seq<Option<Bytes>>, lo: int, hi: int)
    requires |v| == |v0| > 0
    ensures ShiftingUp(v0, v0, hi - 1, hi)
    ensures ShiftingUp(v0, v, lo - 1, hi) ==>
              && (forall p :: lo <= p < hi ==> At(v, p + 1) == At(v0, p))
              && (forall p :: hi + 1 - |v| <= p < lo ==> At(v, p) == At(v0, p))
  {
    hide Slot;
  }

  lemma ShiftUpStep(v0: seq<Option<Bytes>>, v: seq<Option<Bytes>>, p: int, hi: int)
    requires |v| == |v0| > 0 && hi - |v| < p < hi && ShiftingUp(v0, v, p, hi)
    ensures ShiftingUp(v0, MovedTo(v, p + 1, p), p - 1, hi)
  {
    SlotsDistinct(hi + 1 - |v|, |v|);
    hide Slot;
  }

  /** Which of the positions [lo, hi) hold the target; a detached slot holds nothing. */
  ghost function Hits(view: seq<Option<Bytes>>, lo: int, hi: int, target: Bytes): (h: seq<bool>)
    requires |view| > 0 && lo <= hi
    ensures |h| == hi - lo
    ensures forall k :: 0 <= k < hi - lo ==> h[k] == (At(view, lo + k) == Some(target))
  {
    seq(hi - lo, k => At(view, lo + k) == Some(target))
  }

  lemma HitsUp(view: seq<Option<Bytes>>, lo: int, mid: int, hi: int, target: Bytes, c: Collector)
    requires |view| > 0 && lo <= mid <= hi
    ensures ScanUp(Hits(view, lo, hi, target), lo, c)
         == ScanUp(Hits(view, mid, hi, target), mid, ScanUp(Hits(view, lo, mid, target), lo, c))
  {
    assert Hits(view, lo, hi, target) == Hits(view, lo, mid, target) + Hits(view, mid, hi, target);
    ScanUpConcat(Hits(view, lo, mid, target), Hits(view, mid, hi, target), lo, c);
  }

  lemma HitsDown(view: seq<Option<Bytes>>, lo: int, mid: int, hi: int, target: Bytes, c: Collector)
    requires |view| > 0 && lo <= mid <= hi
    ensures ScanDown(Hits(view, lo, hi, target), lo, c)
         == ScanDown(Hits(view, lo, mid, target), lo, ScanDown(Hits(view, mid, hi, target), mid, c))
  {
    assert Hits(view, lo, hi, target) == Hits(view, lo, mid, target) + Hits(view, mid, hi, target);
    ScanDownConcat(Hits(view, lo, mid, target), Hits(view, mid, hi, target), lo, c);
  }

  /** The first index in [from, to) holding `want`, or `to`. */
  method IndexByte(a: array<Byte>, from: int, to: int, want: Byte) returns (i: int)
    requires 0 <= from <= to <= a.Length
    ensures from <= i <= to
    ensures forall k :: from <= k < i ==> a[k] != want
    ensures i < to ==> a[i] == want
  {
    i := from;
    while i < to && a[i] != want
      invariant from <= i <= to
      invariant forall k :: from <= k < i ==> a[k] != want
    {
      i := i + 1;
    }
  }

  /** The last index in [from, to) holding `want`, or from - 1. */
  method LastIndexByte(a: array<Byte>, from: int, to: int, want: Byte) returns (i: int)
    requires 0 <= from <= to <= a.Length
    ensures from - 1 <= i < to
    ensures forall k :: i < k < to ==> a[k] != want
    ensures from <= i ==> a[i] == want
  {
    i := to - 1;
    while i >= from && a[i] != want
      invariant from - 1 <= i < to
      invariant forall k :: i < k < to ==> a[k] != want
    {
      i := i - 1;
    }
  }

  /** The copy loop of `Grow`: fresh arrays in which every live position sits at its new slot.
      `origin` names the position each new slot was filled from, below `head` when none was. */
  method Rehash(slots: array<Buffer?>, sig: array<Byte>, sig2: array<Byte>, head: int, tail: int, newCap: int)
    returns (newSlots: array<Buffer?>, newSig: array<Byte>, newSig2: array<Byte>, ghost origin: seq<int>)
    requires 0 < slots.Length == sig.Length == sig2.Length <= newCap && IsPow2(slots.Length) && IsPow2(newCap)
    requires head <= tail <= head + slots.Length
    ensures fresh(newSlots) && fresh(newSig) && fresh(newSig2)
    ensures newSig != newSig2
    ensures newSlots.Length == newSig.Length == newSig2.Length == |origin| == newCap
    ensures forall q :: head <= q < tail ==> origin[Slot(q, newCap)] == q
    ensures forall i :: 0 <= i < newCap ==>
              if origin[i] < head then newSlots[i] == null else
              && origin[i] < tail && Slot(origin[i], newCap) == i
              && newSlots[i] == slots[Slot(origin[i], slots.Length)]
              && newSig[i] == sig[Slot(origin[i], slots.Length)]
              && newSig2[i] == sig2[Slot(origin[i], slots.Length)]
  {
    hide Slot, Both, IsPow2;
    newSlots := new Buffer?[newCap](_ => null);
    newSig := new Byte[newCap](_ => 0);
    newSig2 := new Byte[newCap](_ => 0);
    origin := seq(newCap, _ => head - 1);
    SlotsDistinct(head, newCap);
    var p := head;
    while p < tail
      invariant head <= p <= tail && |origin| == newCap
      invariant forall q :: head <= q < p ==> origin[Slot(q, newCap)] == q
      invariant forall i :: 0 <= i < newCap ==>
        if origin[i] < head then newSlots[i] == null else
        && origin[i] < p && Slot(origin[i], newCap) == i
        && newSlots[i] == slots[Slot(origin[i], slots.Length)]
        && newSig[i] == sig[Slot(origin[i], slots.Length)]
        && newSig2[i] == sig2[Slot(origin[i], slots.Length)]
    {
      var i, j := Masked(p, newCap), Masked(p, slots.Length);
      newSlots[i], newSig[i], newSig2[i] := slots[j], sig[j], sig2[j];
      origin := origin[i := p];
      p := p + 1;
    }
  }

  class ListRing {
    const sigs: Signatures
    var slots: array<Buffer?>
    var sig: array<Byte>
    var sig2: array<Byte>
    var mask: nat

    /** Per slot the bytes it holds, or `None` while the slot is detached (a nil slice). */
    ghost var view: seq<Option<Bytes>>
    ghost var Repr: set<object>

    /** Capacity a power of two, every occupied slot's buffer private to that slot, and both
        signatures in lockstep with the bytes of every occupied slot. */
    ghost predicate Valid()
      reads this, Repr
    {
      && {this, slots, sig, sig2} <= Repr
      && sig != sig2 && (slots as object) != sig && (slots as object) != sig2
      && slots.Length > 0 && IsPow2(slots.Length) && mask == slots.Length - 1
      && sig.Length == sig2.Length == |view| == slots.Length
      && (forall i :: 0 <= i < slots.Length ==> SlotHolds(i, view[i]))
      && (forall i, j :: 0 <= i < j < slots.Length && slots[i] != null ==> slots[i] != slots[j])
    }

    ghost predicate SlotHolds(i: int, content: Option<Bytes>)
      requires {this, slots, sig, sig2} <= Repr
      requires 0 <= i < slots.Length && sig.Length == sig2.Length == slots.Length
      reads this, Repr
    {
      match content
      case None => slots[i] == null
      case Some(v) =>
        && slots[i] != null && slots[i] in Repr && slots[i].data == v
        && sig[i] == sigs.first(v) && sig2[i] == sigs.second(v)
    }

    /** The slot of a position: `pos & mask`. */
    function Index(pos: int): (i: int)
      requires IsPow2(slots.Length) && mask == slots.Length - 1
      reads this
      ensures i == Slot(pos, slots.Length)
    {
      MaskIsSlot(pos, slots.Length);
      Both(pos, mask)
    }

    /** The slice stored for a position, absent when the slot is detached. */
    function Get(pos: int): (b: Buffer?)
      requires Valid()
      reads this, Repr
      ensures match view[Slot(pos, slots.Length)]
              case None => b == null
              case Some(v) => b != null && b.data == v
    {
      slots[Index(pos)]
    }

    constructor (capacity: int, sigs: Signatures)
      requires IsPow2(capacity)
      ensures Valid() && fresh(Repr)
      ensures this.sigs == sigs
      ensures view == seq(capacity, _ => None)
    {
      this.sigs := sigs;
      slots := new Buffer?[capacity](_ => null);
      sig := new Byte[capacity](_ => 0);
      sig2 := new Byte[capacity](_ => 0);
      mask := capacity - 1;
      view := seq(capacity, _ => None);
      new;
      Repr := {this, slots, sig, sig2};
    }

    /** Store the bytes for `pos`, reusing the slot's own buffer when it has the room.  Storing no
        bytes into a detached slot leaves it detached. */
    method Put(pos: int, v: Bytes)
      requires Valid()
      modifies Repr
      ensures Valid() && fresh(Repr - old(Repr))
      ensures var i := Slot(pos, |old(view)|);
              view == old(view)[i := if v == [] && old(view)[i].None? then None else Some(v)]
    {
      var i := Index(pos);
      assert SlotHolds(i, view[i]);
      if slots[i] != null && |v| <= slots[i].room {
        slots[i].data := v;
      } else if v != [] {
        var room: nat :| |v| <= room;
        slots[i] := new Buffer(v, room);
        Repr := Repr + {slots[i]};
      }
      sig[i], sig2[i] := sigs.first(v), sigs.second(v);
      view := view[i := if slots[i] == null then None else Some(v)];
    }

    /** Detach the slice at `pos`: the caller becomes its only owner. */
    method TakeSlot(pos: int) returns (b: Buffer?)
      requires Valid()
      modifies this, slots
      ensures Valid() && Repr <= old(Repr) && slots == old(slots)
      ensures var i := Slot(pos, |old(view)|);
              && view == old(view)[i := None]
              && match old(view)[i]
                 case None => b == null
                 case Some(v) => b != null && b in old(Repr) && b !in Repr && b.data == v
    {
      var i := Index(pos);
      b := slots[i];
      slots[i] := null;
      view := view[i := None];
      Repr := if b == null then Repr else Repr - {b};
    }

    /** Relocate the slice at `src` to `dst` and detach `src`; a self-move changes nothing. */
    method Move(dst: int, src: int)
      requires Valid()
      modifies this, slots, sig, sig2
      ensures Valid() && Repr == old(Repr)
      ensures slots == old(slots) && sig == old(sig) && sig2 == old(sig2)
      ensures view == MovedTo(old(view), dst, src)
    {
      var i, j := Index(dst), Index(src);
      if i != j {
        slots[i], sig[i], sig2[i] := slots[j], sig[j], sig2[j];
        slots[j] := null;
        view := view[i := view[j]][j := None];
      }
    }

    /** Double the ring and re-seat the live positions [head, tail) by reference. */
    method Grow(head: int, tail: int)
      requires Valid() && head <= tail <= head + |view|
      modifies this
      ensures Valid() && fresh(Repr - old(Repr))
      ensures |view| == 2 * |old(view)|
      ensures forall p :: head <= p < tail ==> At(view, p) == At(old(view), p)
    {
      var newCap := 2 * slots.Length;
      var newSlots, newSig, newSig2, origin := Rehash(slots, sig, sig2, head, tail, newCap);
      SlotsDistinct(head, slots.Length);
      hide Slot;
      ghost var was := view;
      forall i | 0 <= i < slots.Length ensures SlotHolds(i, was[i]) {
      }
      view := seq(newCap, i requires 0 <= i < newCap => if origin[i] < head then None else At(was, origin[i]));
      slots, sig, sig2, mask := newSlots, newSig, newSig2, newCap - 1;
      Repr := Repr + {this, newSlots, newSig, newSig2};
    }

    /** Slide the run [lo, hi) one position down, lowest source first. */
    method ShiftDown(lo: int, hi: int)
      requires Valid() && lo <= hi < lo + |view|
      modifies this, slots, sig, sig2
      ensures Valid() && Repr == old(Repr) && |view| == |old(view)|
      ensures forall p :: lo <= p < hi ==> At(view, p - 1) == At(old(view), p)
      ensures forall p :: hi <= p < lo - 1 + |view| ==> At(view, p) == At(old(view), p)
    {
      SlotsDistinct(lo - 1, |view|);
      hide Slot, IsPow2, SlotHolds;
      var p := lo;
      while p < hi
        invariant lo <= p <= hi
        invariant Valid() && Repr == old(Repr) && |view| == |old(view)|
        invariant slots == old(slots) && sig == old(sig) && sig2 == old(sig2)
        invariant forall q :: lo <= q < p ==> At(view, q - 1) == At(old(view), q)
        invariant forall q :: p <= q < lo - 1 + |view| ==> At(view, q) == At(old(view), q)
      {
        Move(p - 1, p);
        p := p + 1;
      }
    }

    /** Slide the run [lo, hi) one position up, highest source first. */
    method ShiftUp(lo: int, hi: int)
      requires Valid() && lo <= hi < lo + |view|
      modifies this, slots, sig, sig2
      ensures Valid() && Repr == old(Repr) && |view| == |old(view)|
      ensures forall p :: lo <= p < hi ==> At(view, p + 1) == At(old(view), p)
      ensures forall p :: hi + 1 - |view| <= p < lo ==> At(view, p) == At(old(view), p)
    {
      hide Slot, IsPow2, SlotHolds, ShiftingUp, MovedTo, At;
      ghost var was := view;
      ShiftUpEnds(was, view, lo, hi);
      var p := hi - 1;
      while p >= lo
        invariant lo - 1 <= p < hi
        invariant Valid() && Repr == old(Repr) && |view| == |was|
        invariant slots == old(slots) && sig == old(sig) && sig2 == old(sig2)
        invariant ShiftingUp(was, view, p, hi)
      {
        ShiftUpStep(was, view, p, hi);
        Move(p + 1, p);
        p := p - 1;
      }
      ShiftUpEnds(was, view, lo, hi);
    }

    /** Slide [lo, hi) down and put a new element in the slot it frees. */
    method OpenBelow(lo: int, hi: int, val: Bytes)
      requires Valid() && lo <= hi < lo + |view|
      modifies Repr
      ensures Valid() && fresh(Repr - old(Repr)) && |view| == |old(view)|
      ensures forall p :: lo <= p < hi ==> At(view, p - 1) == At(old(view), p)
      ensures At(view, hi - 1) == Some(val) || (val == [] && At(view, hi - 1) == None)
      ensures forall p :: hi <= p < lo - 1 + |view| ==> At(view, p) == At(old(view), p)
    {
      ShiftDown(lo, hi);
      SlotsDistinct(lo - 1, |view|);
      hide Slot, IsPow2, SlotHolds;
      Put(hi - 1, val);
    }

    /** Slide [lo, hi) up and put a new element in the slot it frees. */
    method OpenAbove(lo: int, hi: int, val: Bytes)
      requires Valid() && lo <= hi < lo + |view|
      modifies Repr
      ensures Valid() && fresh(Repr - old(Repr)) && |view| == |old(view)|
      ensures forall p :: lo <= p < hi ==> At(view, p + 1) == At(old(view), p)
      ensures At(view, lo) == Some(val) || (val == [] && At(view, lo) == None)
      ensures forall p :: hi + 1 - |view| <= p < lo ==> At(view, p) == At(old(view), p)
    {
      ShiftUp(lo, hi);
      SlotsDistinct(hi + 1 - |view|, |view|);
      hide Slot, IsPow2, SlotHolds;
      Put(lo, val);
    }

    /** Full check of one signature hit: the second signature, then the bytes themselves. */
    method VisitSlot(pos: int, target: Bytes, c: Collector) returns (c': Collector)
      requires Valid()
      ensures c' == Visit(c, pos, At(view, pos) == Some(target))
    {
      var i := Index(pos);
      assert SlotHolds(i, view[i]);
      c' := c;
      if sig2[i] == sigs.second(target) && slots[i] != null && slots[i].data == target && !c.done {
        c' := Emit(c, pos);
      }
    }

    /** A position whose first signature differs from the target's holds something else. */
    lemma SignatureRulesOut(pos: int, target: Bytes)
      requires Valid() && sig[Slot(pos, slots.Length)] != sigs.first(target)
      ensures At(view, pos) != Some(target)
    {
      var i := Slot(pos, slots.Length);
      assert SlotHolds(i, view[i]);
    }

    /** The next signature hit in [from, to), a range that does not wrap the ring; every position
        passed over holds something else. */
    method NextHit(from: int, to: int, target: Bytes) returns (pos: int)
      requires Valid() && from <= to <= from + slots.Length - Slot(from, slots.Length)
      ensures from <= pos <= to
      ensures forall q :: from <= q < pos ==> At(view, q) != Some(target)
    {
      var start := Index(from);
      var i := IndexByte(sig, start, start + (to - from), sigs.first(target));
      pos := from + (i - start);
      forall q | from <= q < pos ensures At(view, q) != Some(target) {
        SlotAfter(from, q - from, slots.Length);
        SignatureRulesOut(q, target);
      }
    }

    /** The previous signature hit in [from, to), or from - 1. */
    method PreviousHit(from: int, to: int, target: Bytes) returns (pos: int)
      requires Valid() && from <= to <= from + slots.Length - Slot(from, slots.Length)
      ensures from - 1 <= pos < to
      ensures forall q :: pos < q < to ==> At(view, q) != Some(target)
    {
      var start := Index(from);
      var i := LastIndexByte(sig, start, start + (to - from), sigs.first(target));
      pos := from + (i - start);
      forall q | pos < q < to ensures At(view, q) != Some(target) {
        SlotAfter(from, q - from, slots.Length);
        SignatureRulesOut(q, target);
      }
    }

    /** One step of the upward walk inside a run [at, runEnd) that does not wrap. */
    method StepForward(at: int, runEnd: int, target: Bytes, c: Collector) returns (c': Collector, at': int)
      requires Valid() && at < runEnd <= at + slots.Length - Slot(at, slots.Length)
      ensures at < at' <= runEnd
      ensures at' < runEnd ==> runEnd <= at' + slots.Length - Slot(at', slots.Length)
      ensures c' == ScanUp(Hits(view, at, at', target), at, c)
    {
      hide IsPow2, SlotHolds;
      var pos := NextHit(at, runEnd, target);
      if pos == runEnd {
        c', at' := c, pos;
        ScanIdle(Hits(view, at, at', target), at, c);
      } else {
        c' := VisitSlot(pos, target, c);
        at' := pos + 1;
        SlotInRun(at, pos, runEnd, slots.Length);
        ghost var hits := Hits(view, at, at', target);
        ScanUpStep(hits, at, c, 0, pos - at);
        assert hits[..0] == [] && hits[..pos - at + 1] == hits;
      }
    }

    /** Walk [lo, hi) upward over contiguous runs of signature bytes, comparing bytes only where the
        signature matches: exactly the element-by-element scan. */
    method ScanSigForward(lo: int, hi: int, target: Bytes, c0: Collector) returns (c: Collector)
      requires Valid() && hi <= lo + |view|
      ensures lo >= hi ==> c == c0
      ensures lo <= hi ==> c == ScanUp(Hits(view, lo, hi, target), lo, c0)
    {
      hide ScanUp, Hits, IsPow2, SlotHolds;
      c := c0;
      if lo >= hi {
        if lo == hi {
          ScanIdle(Hits(view, lo, hi, target), lo, c0);
        }
        return;
      }
      var at, runEnd := lo, lo;
      while at < hi && !c.done
        invariant lo <= at <= runEnd <= hi
        invariant at < runEnd ==> runEnd <= at + slots.Length - Slot(at, slots.Length)
        invariant ScanUp(Hits(view, lo, hi, target), lo, c0) == ScanUp(Hits(view, at, hi, target), at, c)
      {
        if at == runEnd {
          var room := slots.Length - Index(at);
          runEnd := if room > hi - at then hi else at + room;
        }
        ghost var from, before := at, c;
        c, at := StepForward(at, runEnd, target, c);
        HitsUp(view, from, at, hi, target, before);
      }
      ScanIdle(Hits(view, at, hi, target), at, c);
    }

    /** One step of the downward walk inside a run [runStart, at) that does not wrap. */
    method StepBackward(at: int, runStart: int, target: Bytes, c: Collector) returns (c': Collector, at': int)
      requires Valid() && runStart < at <= runStart + slots.Length - Slot(runStart, slots.Length)
      ensures runStart <= at' < at
      ensures c' == ScanDown(Hits(view, at', at, target), at', c)
    {
      hide IsPow2, SlotHolds;
      var pos := PreviousHit(runStart, at, target);
      if pos < runStart {
        c', at' := c, runStart;
        ScanIdle(Hits(view, at', at, target), at', c);
      } else {
        c' := VisitSlot(pos, target, c);
        at' := pos;
        ghost var hits := Hits(view, at', at, target);
        ScanDownStep(hits, at', c, 0, at - pos);
        assert hits[at - pos..] == [] && hits[0..] == hits;
      }
    }

    /** The descending counterpart of `ScanSigForward`. */
    method ScanSigBackward(lo: int, hi: int, target: Bytes, c0: Collector) returns (c: Collector)
      requires Valid() && hi <= lo + |view|
      ensures lo >= hi ==> c == c0
      ensures lo <= hi ==> c == ScanDown(Hits(view, lo, hi, target), lo, c0)
    {
      hide ScanDown, Hits, IsPow2, SlotHolds;
      c := c0;
      if lo >= hi {
        if lo == hi {
          ScanIdle(Hits(view, lo, hi, target), lo, c0);
        }
        return;
      }
      var at, runStart := hi, hi;
      while at > lo && !c.done
        invariant lo <= runStart <= at <= hi
        invariant runStart < at ==> at <= runStart + slots.Length - Slot(runStart, slots.Length)
        invariant ScanDown(Hits(view, lo, hi, target), lo, c0) == ScanDown(Hits(view, lo, at, target), lo, c)
      {
        if at == runStart {
          var room := Index(at - 1) + 1;
          runStart := if room > at - lo then lo else at - room;
          SlotRunBelow(at - 1, at - 1 - runStart, slots.Length);
        }
        ghost var from, before := at, c;
        c, at := StepBackward(at, runStart, target, c);
        HitsDown(view, lo, at, from, target, before);
      }
      ScanIdle(Hits(view, lo, at, target), lo, c);
    }
  }
}
