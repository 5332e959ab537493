/** The resident window of a hot list: committed and reserved bounds over a ring, with the shrinking
    band of positions that still live in store rows (f1srv/listwindow.go). */
module ListWindow {
  import opened Bytes
  import opened Slots
  import opened ListSize
  import opened ListSpec
  import opened ListPushes
  import opened ListCells
  import opened ListRemoval
  import opened RowStore
  import opened Scan
  import opened ListView
  import Rows = ListRows
  import L = ListRing

  const LIST_RING_MIN_CAP: int := 1024

  /** The smallest power of two that is at least n. */
  method NextPow2(n: int) returns (p: int)
    ensures IsPow2(p) && p >= n
    ensures p == 1 || p / 2 < n
  {
    p := 1;
    while p < n
      invariant IsPow2(p)
      invariant p == 1 || p / 2 < n
      decreases n - p
    {
      p := p * 2;
    }
  }

  /** An LPUSH run in position order. */
  method PositionOrder(run: seq<Bytes>) returns (posElems: seq<Bytes>)
    ensures posElems == Reverse(run)
  {
    posElems := [];
    var i := 0;
    assert run[..0] == [];
    while i < |run|
      invariant 0 <= i <= |run| && posElems == Reverse(run[..i])
    {
      assert run[..i + 1] == run[..i] + [run[i]];
      ReverseConcat(run[..i], [run[i]]);
      posElems := [run[i]] + posElems;
      i := i + 1;
    }
    assert run[..|run|] == run;
  }

  /** The flush up to position p: the positions below hold what a row write leaves, the others what they held. */
  ghost predicate Flushing(rows: map<int, Bytes>, rows': map<int, Bytes>, elems: seq<Bytes>, rest: Strays, head: int, p: int)
    requires 0 <= p - head <= |elems|
  {
    && Stored(rows')
    && RowElems(rows', head, p) == Written(elems, rest, head)[..p - head]
    && (forall q :: q < head || p <= q ==> RowAt(rows', q) == RowAt(rows, q))
  }

  /** One position of the flush: its row, or the row it is given. */
  lemma FlushStep(rows: map<int, Bytes>, rows': map<int, Bytes>, elems: seq<Bytes>, preLo: int, preHi: int, head: int, p: int)
    requires 0 <= p - head < |elems| && Stored(rows) && Flushing(rows, rows', elems, Outside(rows, preLo, preHi), head, p)
    requires InBand(preLo, preHi, p) ==> elems[p - head] == Read(rows, p)
    ensures var rows1 := if InBand(preLo, preHi, p) then rows' else Put(rows', p, elems[p - head]);
            Flushing(rows, rows1, elems, Outside(rows, preLo, preHi), head, p + 1)
  {
    hide Fits;
    var rest, v := Outside(rows, preLo, preHi), elems[p - head];
    var rows1 := if InBand(preLo, preHi, p) then rows' else Put(rows', p, v);
    assert RowAt(rows', p) == RowAt(rows, p);
    assert !InBand(preLo, preHi, p) ==> Read(rest, p) == Read(rows, p);
    assert Read(rows1, p) == Written(elems, rest, head)[p - head];
    assert RowElems(rows1, head, p + 1) == RowElems(rows', head, p) + [Read(rows1, p)];
  }

  lemma FlushEnds(rows: map<int, Bytes>, rows': map<int, Bytes>, elems: seq<Bytes>, preLo: int, preHi: int, head: int, tail: int)
    requires head <= tail && |elems| == tail - head && (preLo < preHi ==> head <= preLo && preHi <= tail)
    ensures Stored(rows) ==> Flushing(rows, rows, elems, Outside(rows, preLo, preHi), head, head)
    ensures Flushing(rows, rows', elems, Outside(rows, preLo, preHi), head, tail) ==>
              && Stored(rows') && RowElems(rows', head, tail) == Written(elems, Outside(rows, preLo, preHi), head)
              && Outside(rows', head, tail) == Outside(Outside(rows, preLo, preHi), head, tail)
  {
    hide Fits;
    var rest := Outside(rows, preLo, preHi);
    assert RowElems(rows, head, head) == [];
    var w := Written(elems, rest, head);
    assert w[..tail - head] == w;
    if Flushing(rows, rows', elems, rest, head, tail) {
      Rows.SameOutside(rows, rows', head, tail);
      assert Outside(rest, head, tail) == Outside(rows, head, tail);
    }
  }

  /** The band's slots stay detached while a pop contracts it. */
  lemma BandLeft(v0: seq<Option<Bytes>>, v1: seq<Option<Bytes>>, lo0: int, hi0: int, lo1: int, hi1: int,
                 head: int, tail: int, lo: int, hi: int, atHead: bool)
    requires |v0| > 0 && |v1| == |v0| && BandNil(v0, lo0, hi0) && (lo0 < hi0 ==> head <= lo0 && hi0 <= tail)
    requires head <= lo <= hi <= tail < head + |v0| && (if atHead then lo == head else hi == tail)
    requires forall p :: InBand(lo1, hi1, p) <==> InBand(lo0, hi0, p) && if atHead then p >= hi else p < lo
    requires forall p :: head <= p < head + |v1| && !(lo <= p < hi) ==> L.At(v1, p) == L.At(v0, p)
    ensures BandNil(v1, lo1, hi1)
  {
    hide L.At;
    forall p | lo1 <= p < hi1 ensures L.At(v1, p) == None {
      assert InBand(lo1, hi1, p);
    }
  }

  lemma NoBand(view: seq<Option<Bytes>>)
    requires |view| > 0
    ensures BandNil(view, 0, 0)
  {
  }

  class ListWindow {
    const ring: L.ListRing
    var reservedHead: int
    var committedHead: int
    var reservedTail: int
    var committedTail: int
    var evicted: bool
    var lpBytes: int
    var everLarge: bool
    var preLo: int
    var preHi: int

    /** Nothing in flight, a capacity strictly above the live span, and a band inside the span whose slots are
        detached. */
    ghost predicate Valid()
      reads this, ring, ring.Repr
    {
      && ring.Valid() && this !in ring.Repr
      && reservedHead == committedHead && reservedTail == committedTail
      && committedHead <= committedTail < committedHead + |ring.view|
      && preLo <= preHi && (preLo < preHi ==> committedHead <= preLo && preHi <= committedTail)
      && BandNil(ring.view, preLo, preHi)
    }

    /** Whether a position lives in the ring rather than in a store row. */
    predicate Resident(pos: int)
      reads this
    {
      !InBand(preLo, preHi, pos)
    }

    ghost function Elements(rows: map<int, Bytes>): (s: seq<Bytes>)
      requires Valid()
      reads this, ring, ring.Repr
    {
      Contents(ring.view, rows, preLo, preHi, committedHead, committedTail)
    }

    constructor (head: int, tail: int, lpBytes: int, everLarge: bool, sigs: L.Signatures)
      requires head <= tail
      ensures Valid() && fresh(ring) && fresh(ring.Repr)
      ensures committedHead == preLo == head && committedTail == preHi == tail
      ensures this.lpBytes == lpBytes && this.everLarge == everLarge && !evicted
      ensures ring.sigs == sigs
    {
      var span := tail - head;
      if span < LIST_RING_MIN_CAP {
        span := LIST_RING_MIN_CAP;
      }
      var cap := NextPow2(span + 1);
      ring := new L.ListRing(cap, sigs);
      reservedHead, committedHead, reservedTail, committedTail := head, head, tail, tail;
      preLo, preHi := head, tail;
      evicted := false;
      this.lpBytes, this.everLarge := lpBytes, everLarge;
    }

    /** Walk the band inward after a pop moved a bound into it: afterwards it holds exactly the
        band positions the pop left behind. */
    method ContractPreblock(atHead: bool, newBound: int)
      requires preLo <= preHi
      modifies this`preLo, this`preHi
      ensures preLo <= preHi
      ensures forall p :: InBand(preLo, preHi, p) <==>
                InBand(old(preLo), old(preHi), p) && (if atHead then p >= newBound else p < newBound)
      ensures preLo < preHi ==> old(preLo) <= preLo && preHi <= old(preHi)
      ensures preLo < preHi ==> if atHead then preLo >= newBound else preHi <= newBound
    {
      var lo, hi := preLo, preHi;
      if lo >= hi {
        return;
      }
      if atHead {
        if newBound <= lo {
          return;
        }
        if newBound >= hi {
          preLo, preHi := 0, 0;
          return;
        }
        preLo := newBound;
        return;
      }
      if newBound >= hi {
        return;
      }
      if newBound <= lo {
        preLo, preHi := 0, 0;
        return;
      }
      preHi := newBound;
    }

    /** Grow the ring until it can hold [lo, hi) without two positions sharing a slot. */
    method RingEnsure(lo: int, hi: int)
      requires Valid()
      modifies ring, ring.Repr
      ensures ring.Valid() && fresh(ring.Repr - old(ring.Repr))
      ensures |ring.view| > hi - lo && |ring.view| >= |old(ring.view)|
      ensures forall p :: committedHead <= p < committedTail ==> L.At(ring.view, p) == L.At(old(ring.view), p)
    {
      while ring.slots.Length <= hi - lo
        invariant ring.Valid() && fresh(ring.Repr - old(ring.Repr))
        invariant |ring.view| >= |old(ring.view)|
        invariant forall p :: committedHead <= p < committedTail ==> L.At(ring.view, p) == L.At(old(ring.view), p)
        decreases hi - lo - ring.slots.Length
      {
        ring.Grow(committedHead, committedTail);
      }
    }

    /** Fill the slots of a run: position start + j takes elems[j]. */
    method RingPutRun(start: int, elems: seq<Bytes>)
      requires ring.Valid() && this !in ring.Repr && |elems| <= |ring.view|
      modifies ring, ring.Repr
      ensures ring.Valid() && fresh(ring.Repr - old(ring.Repr)) && |ring.view| == |old(ring.view)|
      ensures forall j :: 0 <= j < |elems| ==> Text(L.At(ring.view, start + j)) == elems[j]
      ensures forall p ::
                start + |elems| - |ring.view| <= p < start || start + |elems| <= p < start + |ring.view| ==>
                L.At(ring.view, p) == L.At(old(ring.view), p)
    {
      var j := 0;
      SlotsDistinct(start + |elems| - |ring.view|, |ring.view|);
      SlotsDistinct(start, |ring.view|);
      hide Slot, IsPow2, Text;
      while j < |elems|
        invariant 0 <= j <= |elems|
        invariant ring.Valid() && fresh(ring.Repr - old(ring.Repr)) && |ring.view| == |old(ring.view)|
        invariant forall k :: 0 <= k < j ==> Text(L.At(ring.view, start + k)) == elems[k]
        invariant forall p ::
          start + |elems| - |ring.view| <= p < start || start + |elems| <= p < start + |ring.view| ==>
          L.At(ring.view, p) == L.At(old(ring.view), p)
      {
        ring.Put(start + j, elems[j]);
        j := j + 1;
      }
    }

    /** Claim |elems| tail positions and fill them; replies build on the length before the run. */
    method AppendTail(elems: seq<Bytes>, ghost rows: map<int, Bytes>) returns (baseLen: int)
      requires Valid()
      modifies this`reservedTail, this`committedTail, ring, ring.Repr
      ensures Valid() && fresh(ring.Repr - old(ring.Repr))
      ensures baseLen == |old(Elements(rows))|
      ensures committedTail == old(committedTail) + |elems|
      ensures Elements(rows) == old(Elements(rows)) + elems
    {
      hide Contents, Element, Text;
      var start := committedTail;
      baseLen := start - committedHead;
      var end := start + |elems|;
      RingEnsure(committedHead, end);
      RingPutRun(start, elems);
      reservedTail := end;
      committedTail := end;
      ContentsAppend(old(ring.view), ring.view, rows, preLo, preHi, committedHead, start, elems);
    }

    /** The mirror at the low end: posElems is the run in position order. */
    method AppendHead(posElems: seq<Bytes>, ghost rows: map<int, Bytes>) returns (baseLen: int)
      requires Valid()
      modifies this`reservedHead, this`committedHead, ring, ring.Repr
      ensures Valid() && fresh(ring.Repr - old(ring.Repr))
      ensures baseLen == |old(Elements(rows))|
      ensures committedHead == old(committedHead) - |posElems|
      ensures Elements(rows) == posElems + old(Elements(rows))
    {
      hide Contents, Element, Text;
      var high := committedHead;
      var start := high - |posElems|;
      baseLen := committedTail - high;
      RingEnsure(start, committedTail);
      RingPutRun(start, posElems);
      reservedHead := start;
      committedHead := start;
      ContentsPrepend(old(ring.view), ring.view, rows, preLo, preHi, high, committedTail, posElems);
    }

    /** Move the running size and latch the large flag once it passes the budget. */
    method AddBytes(delta: int)
      modifies this`lpBytes, this`everLarge
      ensures lpBytes == old(lpBytes) + delta
      ensures everLarge == (old(everLarge) || lpBytes > LISTPACK_MAX_BYTES)
    {
      lpBytes := lpBytes + delta;
      if lpBytes > LISTPACK_MAX_BYTES && !everLarge {
        everLarge := true;
      }
    }

    /** The rows once every resident position has been written back (the flush loop of listWinDrainEvict): they
        alone hold the whole list, but for what the store refuses. */
    method Flushed(rows: map<int, Bytes>) returns (rows': map<int, Bytes>)
      requires Valid() && Stored(rows)
      ensures Stored(rows')
      ensures RowElems(rows', committedHead, committedTail) == Written(Elements(rows), Outside(rows, preLo, preHi), committedHead)
      ensures Outside(rows', committedHead, committedTail) == Outside(Outside(rows, preLo, preHi), committedHead, committedTail)
    {
      hide Flushing, Written, Contents, RowElems, Outside, Fits, BandNil;
      ghost var elems, rest := Elements(rows), Outside(rows, preLo, preHi);
      rows' := rows;
      var pos := committedHead;
      FlushEnds(rows, rows, elems, preLo, preHi, committedHead, committedTail);
      while pos < committedTail
        invariant committedHead <= pos <= committedTail
        invariant Flushing(rows, rows', elems, rest, committedHead, pos)
      {
        assert elems[pos - committedHead] == Element(ring.view, rows, preLo, preHi, pos);
        FlushStep(rows, rows', elems, preLo, preHi, committedHead, pos);
        if Resident(pos) {
          var b := ring.Get(pos);
          rows' := Put(rows', pos, if b == null then [] else b.data);
        }
        pos := pos + 1;
      }
      FlushEnds(rows, rows', elems, preLo, preHi, committedHead, committedTail);
    }

    /** A push through the window (pushThroughWindow): no row is written. */
    method PushRun(run: seq<Bytes>, atHead: bool, ghost rows: map<int, Bytes>) returns (baseLen: int)
      requires Valid() && SizeTracks(Elements(rows), lpBytes, everLarge)
      modifies this, ring, ring.Repr
      ensures Valid() && fresh(ring.Repr - old(ring.Repr))
      ensures preLo == old(preLo) && preHi == old(preHi) && evicted == old(evicted)
      ensures baseLen == |old(Elements(rows))|
      ensures Elements(rows) == Pushed(old(Elements(rows)), run, atHead)
      ensures committedHead == if atHead then old(committedHead) - |run| else old(committedHead)
      ensures SizeTracks(Elements(rows), lpBytes, everLarge)
      ensures Ahead(Elements(rows), lpBytes) == old(Ahead(Elements(rows), lpBytes))
      ensures everLarge == (old(everLarge) || ListBytes(Elements(rows)) > LISTPACK_MAX_BYTES)
    {
      hide ListBytes, EntryBytes;
      ghost var s := Elements(rows);
      if atHead {
        var posElems := PositionOrder(run);
        baseLen := AppendHead(posElems, rows);
      } else {
        baseLen := AppendTail(run, rows);
      }
      AddBytes(EntryBytes(run));
      SizeOfPushedRun(s, run, atHead);
      EntriesAtLeast(run);
    }

    /** Claim one position of a pop and add it to the slices claimed so far: a resident slice is
        detached, a row's bytes are read into a fresh one. */
    method Claim(pos: int, rows: map<int, Bytes>, bufs: seq<L.Buffer?>, taken: seq<Bytes>, ghost from: int)
      returns (bufs': seq<L.Buffer?>, taken': seq<Bytes>)
      requires ring.Valid() && this !in ring.Repr && Detached(bufs, taken)
      requires from <= pos < from + |ring.view|
      modifies ring, ring.slots
      ensures ring.Valid() && ring.Repr <= old(ring.Repr) && ring.slots == old(ring.slots)
      ensures |ring.view| == |old(ring.view)|
      ensures taken' == taken + [Element(old(ring.view), rows, preLo, preHi, pos)]
      ensures Detached(bufs', taken')
      ensures forall p :: from <= p < from + |ring.view| && p != pos ==> L.At(ring.view, p) == L.At(old(ring.view), p)
    {
      SlotsDistinct(from, |ring.view|);
      hide Slot;
      var b, v;
      if Resident(pos) {
        b := ring.TakeSlot(pos);
        v := if b == null then [] else b.data;
      } else {
        v := Read(rows, pos);
        b := new L.Buffer(v, |v|);
      }
      bufs', taken' := bufs + [b], taken + [v];
    }

    /** The claim loop of a pop over [lo, hi), head-outward or tail-inward.  The slices it returns are
        pairwise distinct and no longer part of the ring; the other live positions stay. */
    method ClaimRun(atHead: bool, lo: int, hi: int, rows: map<int, Bytes>, ghost from: int)
      returns (bufs: seq<L.Buffer?>, taken: seq<Bytes>)
      requires ring.Valid() && this !in ring.Repr && from <= lo <= hi <= from + |ring.view|
      modifies ring, ring.slots
      ensures ring.Valid() && ring.Repr <= old(ring.Repr) && |ring.view| == |old(ring.view)|
      ensures var run := Contents(old(ring.view), rows, preLo, preHi, lo, hi);
              taken == if atHead then run else Reverse(run)
      ensures Detached(bufs, taken)
      ensures forall p :: from <= p < from + |ring.view| && !(lo <= p < hi) ==>
                L.At(ring.view, p) == L.At(old(ring.view), p)
    {
      hide Slot, Element, Reverse;
      ghost var run := Contents(ring.view, rows, preLo, preHi, lo, hi);
      ghost var all := if atHead then run else Reverse(run);
      bufs, taken := [], [];
      ghost var cap := |ring.view|;
      var a, z := lo, hi;  // the positions still to claim
      while a < z
        invariant lo <= a <= z <= hi && (if atHead then z == hi else a == lo)
        invariant ring.Valid() && ring.Repr <= old(ring.Repr) && ring.slots == old(ring.slots) && |ring.view| == cap
        invariant taken == all[..(hi - lo) - (z - a)] && Detached(bufs, taken)
        invariant forall p :: from <= p < from + cap && !(lo <= p < hi && !(a <= p < z)) ==>
          L.At(ring.view, p) == L.At(old(ring.view), p)
      {
        var pos := if atHead then a else z - 1;
        ElementSame(ring.view, old(ring.view), rows, rows, preLo, preHi, pos);
        assert all[(hi - lo) - (z - a)] == Element(old(ring.view), rows, preLo, preHi, pos);
        bufs, taken := Claim(pos, rows, bufs, taken, from);
        if atHead {
          a := a + 1;
        } else {
          z := z - 1;
        }
      }
    }

    /** The critical section of a window pop: move the bound, claim the run, contract the band. */
    method PopClaim(atHead: bool, want: int, rows: map<int, Bytes>)
      returns (bufs: seq<L.Buffer?>, taken: seq<Bytes>, rows': map<int, Bytes>)
      requires Valid() && 0 < want < committedTail - committedHead
      modifies this, ring, ring.slots
      ensures ring.Valid() && this !in ring.Repr && ring.Repr <= old(ring.Repr) && |ring.view| == |old(ring.view)|
      ensures reservedHead == committedHead == old(committedHead) + if atHead then want else 0
      ensures reservedTail == committedTail == old(committedTail) - if atHead then 0 else want
      ensures evicted == old(evicted)
      ensures lpBytes == old(lpBytes) - EntryBytes(taken)
      ensures everLarge == (old(everLarge) || lpBytes > LISTPACK_MAX_BYTES)
      ensures Claimed(old(ring.view), ring.view, rows, rows', old(preLo), old(preHi), preLo, preHi,
                      old(committedHead), old(committedTail), atHead, want, taken)
      ensures Detached(bufs, taken)
      ensures preLo <= preHi && (preLo < preHi ==> committedHead <= preLo && preHi <= committedTail)
      ensures BandNil(ring.view, preLo, preHi) && (preLo < preHi ==> old(preLo) <= preLo && preHi <= old(preHi))
    {
      hide Contents, Reverse, EntryBytes, RowsLeft, Claimed, BandNil;
      var ch, ct := committedHead, committedTail;
      var lo, hi := if atHead then ch else ct - want, if atHead then ch + want else ct;
      if atHead {
        committedHead, reservedHead := hi, hi;
      } else {
        committedTail, reservedTail := lo, lo;
      }
      bufs, taken := ClaimRun(atHead, lo, hi, rows, ch);
      rows' := RowsLeft(rows, lo, hi, preLo, preHi);
      ContractPreblock(atHead, if atHead then hi else lo);
      ClaimedIs(old(ring.view), ring.view, rows, old(preLo), old(preHi), preLo, preHi, ch, ct, atHead, want, lo, hi, taken);
      BandLeft(old(ring.view), ring.view, old(preLo), old(preHi), preLo, preHi, ch, ct, lo, hi, atHead);
      AddBytes(-EntryBytes(taken));
    }

    /** A pop through the window (popEmitWindow): it declines a pop that would empty the list. */
    method PopRun(atHead: bool, want: int, rows: map<int, Bytes>)
      returns (ok: bool, bufs: seq<L.Buffer?>, taken: seq<Bytes>, rows': map<int, Bytes>)
      requires Valid() && SizeTracks(Elements(rows), lpBytes, everLarge)
      modifies this, ring, ring.slots
      ensures Valid() && ring.Repr <= old(ring.Repr) && evicted == old(evicted)
      ensures ok <==> 0 < want < |old(Elements(rows))|
      ensures Outside(rows', preLo, preHi) == old(Outside(rows, preLo, preHi)) && (Stored(rows) ==> Stored(rows'))
      ensures preLo < preHi ==> old(preLo) <= preLo && preHi <= old(preHi)
      ensures SizeTracks(Elements(rows'), lpBytes, everLarge) && everLarge == old(everLarge)
      ensures Ahead(Elements(rows'), lpBytes) == old(Ahead(Elements(rows), lpBytes))
      ensures !ok ==> Elements(rows') == old(Elements(rows))
      ensures ok ==>
                && Elements(rows') == Left(old(Elements(rows)), atHead, want)
                && taken == Taken(old(Elements(rows)), atHead, want)
                && Detached(bufs, taken)
      ensures committedHead == old(committedHead) + if ok && atHead then want else 0
    {
      hide Claimed, Contents, Reverse, ListBytes, EntryBytes, Taken, Left;
      ok, bufs, taken, rows' := false, [], [], rows;
      var ch, ct := committedHead, committedTail;
      if want <= 0 || reservedHead != ch || reservedTail != ct || want >= ct - ch {
        return;
      }
      ok := true;
      ghost var s := Elements(rows);
      bufs, taken, rows' := PopClaim(atHead, want, rows);
      PopIs(old(ring.view), ring.view, rows, rows', old(preLo), old(preHi), preLo, preHi, ch, ct, atHead, want, taken);
      SizeOfLeft(s, atHead, want);
    }

    /** The slices carry these bytes, belong to nobody else and are not part of the ring. */
    ghost predicate Detached(bufs: seq<L.Buffer?>, taken: seq<Bytes>)
      reads ring, set b | b in bufs
    {
      && |bufs| == |taken|
      && (forall i :: 0 <= i < |bufs| ==>
            if bufs[i] == null then taken[i] == [] else bufs[i].data == taken[i] && bufs[i] !in ring.Repr)
      && (forall i, j :: 0 <= i < j < |bufs| && bufs[i] != null ==> bufs[i] != bufs[j])
    }

    /** The three segments of a scan in search order; bounds that cross leave nothing to see. */
    method ScanSegments(rows: map<int, Bytes>, eLo: int, eHi: int, target: Bytes, backward: bool, c0: Collector)
      returns (c: Collector)
      requires Valid()
      requires eLo < eHi ==> committedHead <= eLo && eHi <= committedTail
      ensures eLo >= eHi ==> c == c0
      ensures eLo <= eHi ==>
                var hits := Matches(Seen(ring.view, rows, preLo, preHi, eLo, eHi), Some(target));
                c == if backward then ScanDown(hits, eLo, c0) else ScanUp(hits, eLo, c0)
    {
      hide ScanUp, ScanDown, Seen, RowElems, Matches, L.Hits;
      c := c0;
      var bLo, bHi := ClampRange(preLo, eLo, eHi), ClampRange(preHi, eLo, eHi);
      if backward {
        c := ring.ScanSigBackward(bHi, eHi, target, c);
        c := Rows.ScanRows(rows, bLo, bHi, target, true, c);
        c := ring.ScanSigBackward(eLo, bLo, target, c);
        if eLo <= eHi {
          SegmentsDown(ring.view, rows, preLo, preHi, eLo, bLo, bHi, eHi, target, c0);
        }
      } else {
        c := ring.ScanSigForward(eLo, bLo, target, c);
        c := Rows.ScanRows(rows, bLo, bHi, target, false, c);
        c := ring.ScanSigForward(bHi, eHi, target, c);
        if eLo <= eHi {
          SegmentsUp(ring.view, rows, preLo, preHi, eLo, bLo, bHi, eHi, target, c0);
        }
      }
    }

    /** LPOS on a hot list (lposScan): signature scans over the resident ends and row reads over the
        band report what comparing element after element would. */
    method PosScan(rows: map<int, Bytes>, target: Bytes, backward: bool, skip: int, want: int, maxlen: nat)
      returns (out: seq<int>)
      requires Valid()
      ensures var (lo, hi) := Examined(committedHead, committedTail - committedHead, backward, maxlen);
              out == Scanned(SeenList(rows), Some(target), backward, skip, want, lo, hi)
    {
      hide ScanUp, ScanDown, Seen, Matches, Scanned, Examined;
      var head, tail := committedHead, committedTail;
      var eLo, eHi := Rows.ExaminedBounds(head, tail, backward, maxlen);
      var c := ScanSegments(rows, eLo, eHi, target, backward, Collector(head, skip, want, [], false));
      out := c.out;
      if eLo < eHi {
        PositionsFrom(ring.view, rows, preLo, preHi, head, tail, eLo, eHi, target, backward, skip, want);
      } else {
        Rows.ScannedNothing(SeenList(rows), Some(target), backward, skip, want);
      }
    }

    /** What LPOS sees of the list. */
    ghost function SeenList(rows: map<int, Bytes>): (s: seq<Option<Bytes>>)
      requires Valid()
      reads this, ring, ring.Repr
      ensures Texts(s) == Elements(rows)
    {
      Seen(ring.view, rows, preLo, preHi, committedHead, committedTail)
    }

    /** The loop of listPromoteResident: each row of the band is taken and put into its slot. */
    method MoveBand(rows: map<int, Bytes>) returns (rows': map<int, Bytes>)
      requires Valid()
      modifies this`preLo, this`preHi, ring, ring.Repr
      ensures Valid() && fresh(ring.Repr - old(ring.Repr)) && preLo == preHi == 0
      ensures SlotsOf(ring.view, committedHead, committedTail) == old(EditList(rows))
      ensures rows' == Outside(rows, old(preLo), old(preHi))
    {
      var head, tail := committedHead, committedTail;
      var lo, hi := if preLo < head then head else preLo, if preHi > tail then tail else preHi;
      ghost var was := ring.view;
      PromoteEnds(was, was, rows, preLo, preHi, head, tail, lo);
      assert Outside(rows, lo, lo) == rows;
      hide Slot, IsPow2, Promoting, SlotsOf, Edit, BandNil;
      rows' := rows;
      var p := lo;
      while p < hi
        invariant lo <= p && (p <= hi || p == lo)
        invariant preLo == old(preLo) && preHi == old(preHi)
        invariant ring.Valid() && fresh(ring.Repr - old(ring.Repr)) && |ring.view| == |was|
        invariant Promoting(was, ring.view, rows, preLo, preHi, head, tail, p)
        invariant rows' == Outside(rows, lo, p)
      {
        PromoteStep(was, ring.view, rows, preLo, preHi, head, tail, p);
        if p in rows' {
          ring.Put(p, rows'[p]);
          rows' := rows' - {p};
        }
        assert rows' == Outside(rows, lo, p + 1);
        p := p + 1;
      }
      PromoteEnds(was, ring.view, rows, preLo, preHi, head, tail, p);
      assert rows' == Outside(rows, preLo, preHi);
      preLo, preHi := 0, 0;
      NoBand(ring.view);
    }

    /** Move the band into the ring and take its rows (listPromoteResident): every live position is
        then resident and the list is unchanged. */
    method Promote(rows: map<int, Bytes>) returns (rows': map<int, Bytes>)
      requires Valid()
      modifies this`preLo, this`preHi, ring, ring.Repr
      ensures Valid() && fresh(ring.Repr - old(ring.Repr)) && preLo == preHi == 0
      ensures SlotsOf(ring.view, committedHead, committedTail) == old(EditList(rows))
      ensures Elements(map[]) == old(Elements(rows))
      ensures rows' == Outside(rows, old(preLo), old(preHi))
    {
      hide Contents, Texts, SlotsOf, Edit, Outside, BandNil;
      rows' := MoveBand(rows);
      ContentsOfSlots(ring.view, map[], committedHead, committedTail);
    }

    /** An all-resident window reads no row. */
    lemma Unbanded(rows: map<int, Bytes>)
      requires Valid() && preLo == preHi == 0
      ensures Elements(rows) == Elements(map[])
    {
      ContentsOfSlots(ring.view, map[], committedHead, committedTail);
      ContentsOfSlots(ring.view, rows, committedHead, committedTail);
    }

    /** What an interior edit sees of the list. */
    ghost function EditList(rows: map<int, Bytes>): (s: seq<Option<Bytes>>)
      requires Valid()
      reads this, ring, ring.Repr
      ensures Texts(s) == Elements(rows)
    {
      Edit(ring.view, rows, preLo, preHi, committedHead, committedTail)
    }

    /** Open a slot below index i by sliding the lower run down, and fill it. */
    method InsertLow(i: int, val: Bytes)
      requires Valid() && preLo == preHi == 0 && 0 <= i <= committedTail - committedHead
      modifies this`committedHead, this`reservedHead, ring, ring.Repr
      ensures Valid() && fresh(ring.Repr - old(ring.Repr))
      ensures committedHead == old(committedHead) - 1
      ensures var s := Texts(SlotsOf(old(ring.view), old(committedHead), committedTail));
              Texts(SlotsOf(ring.view, committedHead, committedTail)) == s[..i] + [val] + s[i..]
    {
      hide SlotsOf, Texts, Slot, L.At;
      var head, tail := committedHead, committedTail;
      RingEnsure(head - 1, tail);
      ring.OpenBelow(head, head + i, val);
      committedHead, reservedHead := head - 1, head - 1;
      InsertedLow(old(ring.view), ring.view, head, tail, i, val);
    }

    /** Open a slot at index i by sliding the upper run up, and fill it. */
    method InsertHigh(i: int, val: Bytes)
      requires Valid() && preLo == preHi == 0 && 0 <= i <= committedTail - committedHead
      modifies this`committedTail, this`reservedTail, ring, ring.Repr
      ensures Valid() && fresh(ring.Repr - old(ring.Repr))
      ensures committedTail == old(committedTail) + 1
      ensures var s := Texts(SlotsOf(old(ring.view), committedHead, old(committedTail)));
              Texts(SlotsOf(ring.view, committedHead, committedTail)) == s[..i] + [val] + s[i..]
    {
      hide SlotsOf, Texts, Slot, L.At;
      var head, tail := committedHead, committedTail;
      RingEnsure(head, tail + 1);
      ring.OpenAbove(head + i, tail, val);
      committedTail, reservedTail := tail + 1, tail + 1;
      InsertedHigh(old(ring.view), ring.view, head, tail, i, val);
    }

    /** The pivot search of LINSERT over an all-resident window. */
    method FindResident(target: Bytes) returns (k: Option<nat>)
      requires Valid()
      ensures k == FirstIndex(SlotsOf(ring.view, committedHead, committedTail), Some(target))
    {
      var head, tail := committedHead, committedTail;
      ghost var s := SlotsOf(ring.view, head, tail);
      hide SlotsOf, L.Hits, ScanUp, FirstIndex, Matches;
      var c := ring.ScanSigForward(head, tail, target, Collector(head, 0, -1, [], false));
      SlotHits(ring.view, head, tail, target);
      ScanFirst(s, Some(target), head);
      k := if |c.out| == 0 then None else Some(c.out[0]);
    }

    /** Insert at index i of an all-resident window, sliding the shorter side. */
    method InsertAt(i: int, val: Bytes)
      requires Valid() && preLo == preHi == 0 && 0 <= i <= committedTail - committedHead
      requires SizeTracks(Elements(map[]), lpBytes, everLarge)
      modifies this, ring, ring.Repr
      ensures Valid() && fresh(ring.Repr - old(ring.Repr)) && preLo == preHi == 0 && evicted == old(evicted)
      ensures SizeTracks(Elements(map[]), lpBytes, everLarge)
      ensures Ahead(Elements(map[]), lpBytes) == old(Ahead(Elements(map[]), lpBytes))
      ensures everLarge == (old(everLarge) || ListBytes(Elements(map[])) > LISTPACK_MAX_BYTES)
      ensures var s := old(Elements(map[])); Elements(map[]) == s[..i] + [val] + s[i..]
      ensures committedHead == InsertedHead(old(committedHead), old(committedTail) - old(committedHead), i)
    {
      hide SlotsOf, ListBytes, EntryBytes, Contents, Texts;
      ghost var s := Elements(map[]);
      ContentsOfSlots(ring.view, map[], committedHead, committedTail);
      var n := committedTail - committedHead;
      if i <= n - i {
        InsertLow(i, val);
      } else {
        InsertHigh(i, val);
      }
      AddBytes(EntryBytes([val]));
      ContentsOfSlots(ring.view, map[], committedHead, committedTail);
      InsertedSize(s, i, val);
      EntriesAtLeast([val]);
    }

    /** LINSERT on a hot list (linsertResident), entirely in the ring. */
    method InsertResident(rows: map<int, Bytes>, pivot: Bytes, val: Bytes, before: bool)
      returns (rows': map<int, Bytes>, found: Option<nat>)
      requires Valid() && SizeTracks(Elements(rows), lpBytes, everLarge)
      modifies this, ring, ring.Repr
      ensures Valid() && fresh(ring.Repr - old(ring.Repr)) && preLo == preHi == 0 && evicted == old(evicted)
      ensures SizeTracks(Elements(map[]), lpBytes, everLarge)
      ensures Ahead(Elements(map[]), lpBytes) == old(Ahead(Elements(rows), lpBytes))
      ensures everLarge == (old(everLarge) || (found.Some? && ListBytes(Elements(map[])) > LISTPACK_MAX_BYTES))
      ensures rows' == Outside(rows, old(preLo), old(preHi))
      ensures found == FirstIndex(old(EditList(rows)), Some(pivot))
      ensures var s := old(Elements(rows));
              match found
              case None => Elements(map[]) == s && committedHead == old(committedHead)
              case Some(k) =>
                var i := if before then k else k + 1;
                && Elements(map[]) == s[..i] + [val] + s[i..]
                && committedHead == InsertedHead(old(committedHead), |s|, i)
    {
      hide FirstIndex, SlotsOf, ListBytes, EntryBytes, Contents, Texts, Edit, Outside, BandNil;
      rows' := Promote(rows);
      found := FindResident(pivot);
      if found.Some? {
        InsertAt(if before then found.value else found.value + 1, val);
      }
    }

    /** The match collection of LREM over an all-resident window. */
    method CollectResident(target: Bytes, count: int) returns (del: set<int>)
      requires Valid() && INT64_MIN <= count <= INT64_MAX
      ensures var s := SlotsOf(ring.view, committedHead, committedTail);
              del == ToSet(Chosen(AllHits(Matches(s, Some(target)), committedHead), Counted(count)))
    {
      var head, tail := committedHead, committedTail;
      ghost var s := SlotsOf(ring.view, head, tail);
      hide SlotsOf, L.Hits, ScanUp, ScanDown, AllHits, Matches, Chosen, Wrap64, Counted, ToSet;
      var c := Collector(0, 0, if count < 0 then Wrap64(-count) else count, [], false);
      if count >= 0 {
        c := ring.ScanSigForward(head, tail, target, c);
      } else {
        c := ring.ScanSigBackward(head, tail, target, c);
      }
      SlotHits(ring.view, head, tail, target);
      ScanCounted(s, Some(target), head, count);
      del := set p | p in c.out;
      Rows.SetOf(c.out);
    }

    /** One step of the ring compaction: the survivor at p slides down to the write cursor. */
    method Slide(wc: int, p: int, ghost head: int, ghost tail: int)
      requires ring.Valid() && head <= wc <= p < tail < head + |ring.view|
      modifies ring, ring.slots, ring.sig, ring.sig2
      ensures ring.Valid() && ring.Repr == old(ring.Repr) && |ring.view| == |old(ring.view)|
      ensures ring.slots == old(ring.slots) && ring.sig == old(ring.sig) && ring.sig2 == old(ring.sig2)
      ensures SlotsOf(ring.view, head, wc + 1) == SlotsOf(old(ring.view), head, wc) + [L.At(old(ring.view), p)]
      ensures forall q :: p < q < tail ==> L.At(ring.view, q) == L.At(old(ring.view), q)
    {
      SlotsDistinct(head, |ring.view|);
      hide Slot, SlotsOf;
      if wc != p {
        ring.Move(wc, p);
      }
      SlideOne(old(ring.view), ring.view, head, wc, p);
    }

    /** One position of the compaction pass: a match is dropped, a survivor slides down. */
    method CompactSlot(ghost view0: seq<Option<Bytes>>, ghost head: int, wc: int, p: int, ghost tail: int,
                       del: set<int>, dropped: int)
      returns (wc': int, dropped': int)
      requires ring.Valid() && head <= p < tail < head + |ring.view| && |view0| == |ring.view|
      requires Compacting(view0, ring.view, head, wc, p, tail, del, dropped)
      modifies ring, ring.slots, ring.sig, ring.sig2
      ensures ring.Valid() && ring.Repr == old(ring.Repr) && |ring.view| == |old(ring.view)|
      ensures ring.slots == old(ring.slots) && ring.sig == old(ring.sig) && ring.sig2 == old(ring.sig2)
      ensures Compacting(view0, ring.view, head, wc', p + 1, tail, del, dropped')
    {
      hide Kept, SlotsOf, Texts, EntryBytes, Slot, Lost;
      ghost var s := SlotsOf(view0, head, tail);
      KeptStep(s, p - head, head, del);
      LostStep(Texts(s), p - head, head, del);
      wc', dropped' := wc, dropped;
      if p in del {
        var b := ring.Get(p);
        dropped' := dropped + EntryBytes([if b == null then [] else b.data]);
      } else {
        Slide(wc, p, head, tail);
        wc' := wc + 1;
      }
    }

    /** The compaction pass of LREM in the ring. */
    method CompactRing(del: set<int>) returns (wc: int, dropped: int)
      requires Valid() && preLo == preHi == 0
      modifies ring, ring.slots, ring.sig, ring.sig2
      ensures ring.Valid() && ring.Repr == old(ring.Repr) && |ring.view| == |old(ring.view)|
      ensures committedHead <= wc <= committedTail
      ensures var s := SlotsOf(old(ring.view), committedHead, committedTail);
              && SlotsOf(ring.view, committedHead, wc) == Kept(s, committedHead, del)
              && dropped == Lost(Texts(s), |s|, committedHead, del)
    {
      hide Compacting, Kept, Lost, SlotsOf, Texts;
      var head, tail := committedHead, committedTail;
      ghost var view0 := ring.view;
      wc, dropped := head, 0;
      CompactEnds(view0, ring.view, head, wc, tail, del, dropped);
      var p := head;
      while p < tail
        invariant head <= p <= tail
        invariant ring.Valid() && ring.Repr == old(ring.Repr) && |ring.view| == |view0|
        invariant ring.slots == old(ring.slots) && ring.sig == old(ring.sig) && ring.sig2 == old(ring.sig2)
        invariant Compacting(view0, ring.view, head, wc, p, tail, del, dropped)
      {
        wc, dropped := CompactSlot(view0, head, wc, p, tail, del, dropped);
        p := p + 1;
      }
      CompactEnds(view0, ring.view, head, wc, tail, del, dropped);
    }

    /** LREM on a hot list (lremResident), entirely in the ring. */
    method RemoveResident(rows: map<int, Bytes>, target: Bytes, count: int) returns (rows': map<int, Bytes>, removed: int)
      requires Valid() && SizeTracks(Elements(rows), lpBytes, everLarge)
      requires INT64_MIN <= count <= INT64_MAX
      modifies this, ring, ring.Repr
      ensures fresh(ring.Repr - old(ring.Repr)) && evicted == old(evicted) && committedHead == old(committedHead)
      ensures var kept := Texts(Removed(old(EditList(rows)), Some(target), Counted(count)));
              && removed == |old(Elements(rows))| - |kept|
              && Valid() && preLo == preHi == 0
              && Elements(map[]) == kept
              && SizeTracks(Elements(map[]), lpBytes, everLarge)
              && Ahead(Elements(map[]), lpBytes) == old(Ahead(Elements(rows), lpBytes))
              && everLarge == old(everLarge)
      ensures rows' == Outside(rows, old(preLo), old(preHi))
    {
      hide SlotsOf, ListBytes, EntryBytes, Contents, Texts, Edit, Kept, Removed, AllHits, Matches, Chosen, Outside, BandNil;
      rows' := Promote(rows);
      ghost var s := SlotsOf(ring.view, committedHead, committedTail);
      var del := CollectResident(target, count);
      ChosenRemoves(s, Some(target), committedHead, Counted(count));
      TextsOfKept(s, committedHead, del);
      if del == {} {
        KeptNone(s, committedHead);
        removed := 0;
        return;
      }
      removed := RemoveSlots(del);
    }

    /** Drop the chosen positions of an all-resident window. */
    method RemoveSlots(del: set<int>) returns (removed: int)
      requires Valid() && preLo == preHi == 0 && SizeTracks(Elements(map[]), lpBytes, everLarge)
      modifies this, ring, ring.Repr
      ensures ring.Repr == old(ring.Repr) && evicted == old(evicted) && committedHead == old(committedHead)
      ensures var kept := Kept(old(Elements(map[])), old(committedHead), del);
              && removed == |old(Elements(map[]))| - |kept|
              && Valid() && preLo == preHi == 0
              && Elements(map[]) == kept
              && SizeTracks(Elements(map[]), lpBytes, everLarge)
              && Ahead(Elements(map[]), lpBytes) == old(Ahead(Elements(map[]), lpBytes))
              && everLarge == old(everLarge)
    {
      hide SlotsOf, ListBytes, EntryBytes, Contents, Texts, Kept;
      var head := committedHead;
      ghost var s := SlotsOf(ring.view, head, committedTail);
      ContentsOfSlots(ring.view, map[], head, committedTail);
      var wc, dropped := CompactRing(del);
      AddBytes(-dropped);
      removed := committedTail - wc;
      committedTail, reservedTail := wc, wc;
      TextsOfKept(s, head, del);
      ContentsOfSlots(ring.view, map[], head, wc);
      KeptSize(Texts(s), head, del);
    }

    /** The elements at indexes [lo, hi), each from the ring or its row (listElemRead). */
    method ReadRange(rows: map<int, Bytes>, lo: int, hi: int) returns (vs: seq<Bytes>)
      requires Valid() && 0 <= lo <= hi <= committedTail - committedHead
      ensures vs == Elements(rows)[lo..hi]
    {
      hide Slot;
      ghost var s := Elements(rows);
      vs := [];
      var i := lo;
      while i < hi
        invariant lo <= i <= hi && vs == s[lo..i]
      {
        var pos := committedHead + i;
        assert s[i] == Element(ring.view, rows, preLo, preHi, pos);
        assert s[lo..i + 1] == s[lo..i] + [s[i]];
        if Resident(pos) {
          var b := ring.Get(pos);
          vs := vs + [if b == null then [] else b.data];
        } else {
          vs := vs + [Read(rows, pos)];
        }
        i := i + 1;
      }
    }
  }
}
