/** What a list's representations stand for: the elements read from ring slots and rows, and how the
    reading changes under each edit.  Everything here is about values; the objects that hold them are
    in ListWindow and HotList. */
module ListView {
  import opened Bytes
  import opened Slots
  import opened ListSize
  import opened ListSpec
  import opened ListRemoval
  import opened RowStore
  import opened Scan
  import L = ListRing

  predicate InBand(lo: int, hi: int, p: int)
  {
    lo <= p < hi
  }

  /** The bytes a slot yields: a detached slot reads as no bytes. */
  ghost function Text(content: Option<Bytes>): (v: Bytes)
  {
    match content
    case None => []
    case Some(v) => v
  }

  /** The element at a position: its row inside the pre-block band, its ring slot elsewhere. */
  ghost function Element(view: seq<Option<Bytes>>, rows: map<int, Bytes>, preLo: int, preHi: int, p: int): (e: Bytes)
    requires |view| > 0
  {
    if preLo <= p < preHi then Read(rows, p) else Text(L.At(view, p))
  }

  /** The list a window and its rows stand for. */
  ghost function Contents(view: seq<Option<Bytes>>, rows: map<int, Bytes>, preLo: int, preHi: int,
                          head: int, tail: int): (s: seq<Bytes>)
    requires |view| > 0 && head <= tail
    ensures |s| == tail - head
    ensures forall i :: 0 <= i < |s| ==> s[i] == Element(view, rows, preLo, preHi, head + i)
  {
    seq(tail - head, i => Element(view, rows, preLo, preHi, head + i))
  }

  /** The list held by rows alone; a missing row reads as no bytes. */
  ghost function RowElems(rows: map<int, Bytes>, head: int, tail: int): (s: seq<Bytes>)
    requires head <= tail
    ensures |s| == tail - head
    ensures forall i :: 0 <= i < |s| ==> s[i] == Read(rows, head + i)
  {
    seq(tail - head, i => Read(rows, head + i))
  }

  /** What a search compares at a row: a missing one matches nothing. */
  ghost function RowAt(rows: map<int, Bytes>, p: int): (o: Option<Bytes>)
    ensures Text(o) == Read(rows, p)
  {
    if p in rows then Some(rows[p]) else None
  }

  ghost function RowView(rows: map<int, Bytes>, head: int, tail: int): (s: seq<Option<Bytes>>)
    requires head <= tail
    ensures |s| == tail - head
    ensures forall i :: 0 <= i < |s| ==> s[i] == RowAt(rows, head + i)
  {
    seq(tail - head, i => RowAt(rows, head + i))
  }

  lemma RowTexts(rows: map<int, Bytes>, head: int, tail: int)
    requires head <= tail
    ensures Texts(RowView(rows, head, tail)) == RowElems(rows, head, tail)
  {
  }

  /** What LPOS compares at a position: the row, or the slot, where a detached slot matches nothing. */
  ghost function SeenAt(view: seq<Option<Bytes>>, rows: map<int, Bytes>, preLo: int, preHi: int, p: int): (o: Option<Bytes>)
    requires |view| > 0
  {
    if preLo <= p < preHi then RowAt(rows, p) else L.At(view, p)
  }

  ghost function Seen(view: seq<Option<Bytes>>, rows: map<int, Bytes>, preLo: int, preHi: int,
                      head: int, tail: int): (s: seq<Option<Bytes>>)
    requires |view| > 0 && head <= tail
    ensures |s| == tail - head
    ensures forall i :: 0 <= i < |s| ==> s[i] == SeenAt(view, rows, preLo, preHi, head + i)
  {
    seq(tail - head, i => SeenAt(view, rows, preLo, preHi, head + i))
  }

  /** The slots of the band's positions are detached until the band moves into them. */
  ghost predicate BandNil(view: seq<Option<Bytes>>, preLo: int, preHi: int)
    requires |view| > 0
  {
    forall p :: preLo <= p < preHi ==> L.At(view, p) == None
  }

  /** What an interior edit compares at a position, once the band has been moved into the ring: a missing row,
      and an empty one moved into a detached slot, leave the slot detached. */
  ghost function EditAt(view: seq<Option<Bytes>>, rows: map<int, Bytes>, preLo: int, preHi: int, p: int): (o: Option<Bytes>)
    requires |view| > 0
    ensures Text(o) == Element(view, rows, preLo, preHi, p)
  {
    if preLo <= p < preHi then
      if Read(rows, p) == [] then None else Some(Read(rows, p))
    else
      L.At(view, p)
  }

  ghost function Edit(view: seq<Option<Bytes>>, rows: map<int, Bytes>, preLo: int, preHi: int,
                      head: int, tail: int): (s: seq<Option<Bytes>>)
    requires |view| > 0 && head <= tail
    ensures |s| == tail - head
    ensures forall i :: 0 <= i < |s| ==> s[i] == EditAt(view, rows, preLo, preHi, head + i)
  {
    seq(tail - head, i => EditAt(view, rows, preLo, preHi, head + i))
  }

  /** The slots of [head, tail) when every position is resident. */
  ghost function SlotsOf(view: seq<Option<Bytes>>, head: int, tail: int): (s: seq<Option<Bytes>>)
    requires |view| > 0 && head <= tail
    ensures |s| == tail - head
    ensures forall i :: 0 <= i < |s| ==> s[i] == L.At(view, head + i)
  {
    seq(tail - head, i => L.At(view, head + i))
  }

  ghost function Texts(s: seq<Option<Bytes>>): (t: seq<Bytes>)
    ensures |t| == |s|
    ensures forall i :: 0 <= i < |s| ==> t[i] == Text(s[i])
  {
    seq(|s|, i requires 0 <= i < |s| => Text(s[i]))
  }

  /** The promotion of the band, up to position p: rows below p have moved into their slots. */
  ghost predicate Promoting(v0: seq<Option<Bytes>>, v: seq<Option<Bytes>>, rows: map<int, Bytes>, preLo: int, preHi: int,
                            head: int, tail: int, p: int)
    requires |v0| > 0 && |v| == |v0|
  {
    forall q :: head <= q < tail ==> L.At(v, q) == if q < p then EditAt(v0, rows, preLo, preHi, q) else L.At(v0, q)
  }

  lemma PromoteStep(v0: seq<Option<Bytes>>, v: seq<Option<Bytes>>, rows: map<int, Bytes>, preLo: int, preHi: int,
                    head: int, tail: int, p: int)
    requires |v0| > 0 && |v| == |v0| && head <= p < tail < head + |v| && InBand(preLo, preHi, p) && BandNil(v0, preLo, preHi)
    requires Promoting(v0, v, rows, preLo, preHi, head, tail, p)
    ensures var i := Slot(p, |v|);
            var v' := if p in rows then v[i := if rows[p] == [] && v[i].None? then None else Some(rows[p])] else v;
            Promoting(v0, v', rows, preLo, preHi, head, tail, p + 1)
  {
    SlotsDistinct(head, |v|);
    hide Slot;
  }

  lemma PromoteEnds(v0: seq<Option<Bytes>>, v: seq<Option<Bytes>>, rows: map<int, Bytes>, preLo: int, preHi: int,
                    head: int, tail: int, p: int)
    requires |v0| > 0 && |v| == |v0| && head <= tail
    ensures (preLo < preHi ==> p == preLo) ==> Promoting(v0, v0, rows, preLo, preHi, head, tail, p)
    ensures (preLo < preHi ==> p == preHi) && Promoting(v0, v, rows, preLo, preHi, head, tail, p) ==>
              SlotsOf(v, head, tail) == Edit(v0, rows, preLo, preHi, head, tail)
  {
  }

  /** The compaction pass at position p: the survivors so far lie in [head, wc), the rest is untouched. */
  ghost predicate Compacting(view0: seq<Option<Bytes>>, view: seq<Option<Bytes>>, head: int, wc: int, p: int, tail: int,
                             del: set<int>, dropped: int)
    requires |view| > 0 && |view0| > 0 && head <= tail
  {
    var s := SlotsOf(view0, head, tail);
    && head <= wc <= p <= tail
    && (forall q :: p <= q < tail ==> L.At(view, q) == L.At(view0, q))
    && SlotsOf(view, head, wc) == Kept(s[..p - head], head, del)
    && dropped == Lost(Texts(s), p - head, head, del)
  }

  lemma CompactEnds(view0: seq<Option<Bytes>>, view: seq<Option<Bytes>>, head: int, wc: int, tail: int, del: set<int>,
                    dropped: int)
    requires |view| > 0 && |view0| > 0 && head <= tail
    ensures Compacting(view0, view0, head, head, head, tail, del, 0)
    ensures Compacting(view0, view, head, wc, tail, tail, del, dropped) ==>
              var s := SlotsOf(view0, head, tail);
              && head <= wc <= tail
              && SlotsOf(view, head, wc) == Kept(s, head, del) && dropped == Lost(Texts(s), |s|, head, del)
  {
    var s := SlotsOf(view0, head, tail);
    assert Kept(s[..0], head, del) == [] && SlotsOf(view0, head, head) == [];
    LostStart(Texts(s), head, del);
    hide Kept, Lost, Texts;
    assert s[..tail - head] == s && s[..head - head] == s[..0];
  }

  /** The run below index i moved down one position and the new element put in the gap. */
  lemma InsertedLow(v0: seq<Option<Bytes>>, v1: seq<Option<Bytes>>, head: int, tail: int, i: int, val: Bytes)
    requires |v0| > 0 && |v1| > 0 && 0 <= i <= tail - head
    requires forall p :: head <= p < head + i ==> L.At(v1, p - 1) == L.At(v0, p)
    requires Text(L.At(v1, head + i - 1)) == val
    requires forall p :: head + i <= p < tail ==> L.At(v1, p) == L.At(v0, p)
    ensures var s := Texts(SlotsOf(v0, head, tail));
            Texts(SlotsOf(v1, head - 1, tail)) == s[..i] + [val] + s[i..]
  {
    hide SlotsOf, Texts, L.At;
    var s := Texts(SlotsOf(v0, head, tail));
    var t, u := Texts(SlotsOf(v1, head - 1, tail)), s[..i] + [val] + s[i..];
    forall k | 0 <= k < |t| ensures t[k] == u[k] {
      assert k < i ==> (head + k) - 1 == head - 1 + k;
    }
  }

  lemma InsertedHigh(v0: seq<Option<Bytes>>, v1: seq<Option<Bytes>>, head: int, tail: int, i: int, val: Bytes)
    requires |v0| > 0 && |v1| > 0 && 0 <= i <= tail - head
    requires forall p :: head <= p < head + i ==> L.At(v1, p) == L.At(v0, p)
    requires Text(L.At(v1, head + i)) == val
    requires forall p :: head + i <= p < tail ==> L.At(v1, p + 1) == L.At(v0, p)
    ensures var s := Texts(SlotsOf(v0, head, tail));
            Texts(SlotsOf(v1, head, tail + 1)) == s[..i] + [val] + s[i..]
  {
    hide SlotsOf, Texts, L.At;
    var s := Texts(SlotsOf(v0, head, tail));
    var t, u := Texts(SlotsOf(v1, head, tail + 1)), s[..i] + [val] + s[i..];
    forall k | 0 <= k < |t| ensures t[k] == u[k] {
      assert k > i ==> (head + (k - 1)) + 1 == head + k;
    }
  }

  lemma SlotHits(view: seq<Option<Bytes>>, head: int, tail: int, target: Bytes)
    requires |view| > 0 && head <= tail
    ensures Matches(SlotsOf(view, head, tail), Some(target)) == L.Hits(view, head, tail, target)
  {
  }

  /** One compaction step: the survivor at p lands at the write cursor. */
  lemma SlideOne(v0: seq<Option<Bytes>>, v1: seq<Option<Bytes>>, head: int, wc: int, p: int)
    requires |v0| > 0 && |v1| > 0 && head <= wc <= p
    requires forall q :: head <= q < wc ==> L.At(v1, q) == L.At(v0, q)
    requires L.At(v1, wc) == L.At(v0, p)
    ensures SlotsOf(v1, head, wc + 1) == SlotsOf(v0, head, wc) + [L.At(v0, p)]
  {
  }

  lemma ContentsOfSlots(view: seq<Option<Bytes>>, rows: map<int, Bytes>, head: int, tail: int)
    requires |view| > 0 && head <= tail
    ensures Contents(view, rows, 0, 0, head, tail) == Texts(SlotsOf(view, head, tail))
  {
  }

  lemma ContentsAppend(v0: seq<Option<Bytes>>, v1: seq<Option<Bytes>>, rows: map<int, Bytes>,
                       preLo: int, preHi: int, head: int, tail: int, elems: seq<Bytes>)
    requires |v0| > 0 && |v1| > 0 && head <= tail && (preLo < preHi ==> preHi <= tail)
    requires forall p :: head <= p < tail ==> L.At(v1, p) == L.At(v0, p)
    requires forall j :: 0 <= j < |elems| ==> Text(L.At(v1, tail + j)) == elems[j]
    ensures Contents(v1, rows, preLo, preHi, head, tail + |elems|)
         == Contents(v0, rows, preLo, preHi, head, tail) + elems
  {
    forall i | 0 <= i < tail + |elems| - head
      ensures Element(v1, rows, preLo, preHi, head + i)
           == (Contents(v0, rows, preLo, preHi, head, tail) + elems)[i]
    {
      if head + i >= tail {
        assert tail + (head + i - tail) == head + i;
      }
    }
  }

  lemma ContentsPrepend(v0: seq<Option<Bytes>>, v1: seq<Option<Bytes>>, rows: map<int, Bytes>,
                        preLo: int, preHi: int, head: int, tail: int, elems: seq<Bytes>)
    requires |v0| > 0 && |v1| > 0 && head <= tail && (preLo < preHi ==> head <= preLo)
    requires forall p :: head <= p < tail ==> L.At(v1, p) == L.At(v0, p)
    requires forall j :: 0 <= j < |elems| ==> Text(L.At(v1, head - |elems| + j)) == elems[j]
    ensures Contents(v1, rows, preLo, preHi, head - |elems|, tail)
         == elems + Contents(v0, rows, preLo, preHi, head, tail)
  {
  }

  lemma ElementSame(v0: seq<Option<Bytes>>, v1: seq<Option<Bytes>>, rows0: map<int, Bytes>, rows1: map<int, Bytes>,
                    preLo: int, preHi: int, p: int)
    requires |v0| > 0 && |v1| > 0
    requires if preLo <= p < preHi then Read(rows0, p) == Read(rows1, p) else L.At(v0, p) == L.At(v1, p)
    ensures Element(v0, rows0, preLo, preHi, p) == Element(v1, rows1, preLo, preHi, p)
  {
  }

  /** Popping from an end leaves the other elements where they were. */
  lemma ContentsPop(v0: seq<Option<Bytes>>, v1: seq<Option<Bytes>>, rows0: map<int, Bytes>, rows1: map<int, Bytes>,
                    lo0: int, hi0: int, lo1: int, hi1: int, head: int, tail: int, atHead: bool, want: int)
    requires |v0| > 0 && |v1| > 0 && 0 <= want <= tail - head
    requires var h, t := if atHead then head + want else head, if atHead then tail else tail - want;
             forall p :: h <= p < t ==>
               && (InBand(lo1, hi1, p) <==> InBand(lo0, hi0, p))
               && (if InBand(lo0, hi0, p) then Read(rows1, p) == Read(rows0, p) else L.At(v1, p) == L.At(v0, p))
    ensures var h, t := if atHead then head + want else head, if atHead then tail else tail - want;
            Contents(v1, rows1, lo1, hi1, h, t) == Left(Contents(v0, rows0, lo0, hi0, head, tail), atHead, want)
  {
    hide Contents;
    var h, t := if atHead then head + want else head, if atHead then tail else tail - want;
    var s := Contents(v0, rows0, lo0, hi0, head, tail);
    var r := Contents(v1, rows1, lo1, hi1, h, t);
    forall i | 0 <= i < t - h ensures r[i] == s[h - head + i] {
      assert InBand(lo1, hi1, h + i) <==> InBand(lo0, hi0, h + i);
      assert head + (h - head + i) == h + i;
    }
  }

  /** A window pop takes no row outside the band. */
  lemma PopBand(rows0: map<int, Bytes>, rows1: map<int, Bytes>, lo0: int, hi0: int, lo1: int, hi1: int,
                head: int, tail: int, lo: int, hi: int, atHead: bool)
    requires lo0 < hi0 ==> head <= lo0 && hi0 <= tail
    requires head <= lo <= hi <= tail && (if atHead then lo == head else hi == tail)
    requires forall p :: p in rows1 <==> p in rows0 && !(lo <= p < hi && InBand(lo0, hi0, p))
    requires forall p :: p in rows1 ==> rows1[p] == rows0[p]
    requires forall p :: InBand(lo1, hi1, p) <==> InBand(lo0, hi0, p) && if atHead then p >= hi else p < lo
    ensures Outside(rows1, lo1, hi1) == Outside(rows0, lo0, hi0)
  {
    var a, b := Outside(rows1, lo1, hi1), Outside(rows0, lo0, hi0);
    forall p ensures p in a <==> p in b {
      assert InBand(lo1, hi1, p) <==> lo1 <= p < hi1;
      assert InBand(lo0, hi0, p) <==> lo0 <= p < hi0;
    }
    assert a.Keys == b.Keys;
  }

  /** A popped run is what a pop of the whole list takes. */
  lemma PopTaken(v: seq<Option<Bytes>>, rows: map<int, Bytes>, preLo: int, preHi: int,
                 head: int, tail: int, atHead: bool, want: int)
    requires |v| > 0 && 0 <= want <= tail - head
    ensures var run := if atHead then Contents(v, rows, preLo, preHi, head, head + want)
                       else Contents(v, rows, preLo, preHi, tail - want, tail);
            (if atHead then run else Reverse(run)) == Taken(Contents(v, rows, preLo, preHi, head, tail), atHead, want)
  {
    hide Contents, Reverse;
    if atHead {
      ContentsSlice(v, rows, preLo, preHi, head, tail, head, head + want);
    } else {
      ContentsSlice(v, rows, preLo, preHi, head, tail, tail - want, tail);
    }
  }

  /** The effect of a window pop on the ring, the rows and the band. */
  ghost predicate Claimed(v0: seq<Option<Bytes>>, v1: seq<Option<Bytes>>, rows0: map<int, Bytes>, rows1: map<int, Bytes>,
                          lo0: int, hi0: int, lo1: int, hi1: int, head: int, tail: int, atHead: bool, want: int,
                          taken: seq<Bytes>)
    requires |v0| > 0 && 0 <= want <= tail - head && |v1| > 0
  {
    var lo, hi := if atHead then head else tail - want, if atHead then head + want else tail;
    var run := Contents(v0, rows0, lo0, hi0, lo, hi);
    && taken == (if atHead then run else Reverse(run))
    && (forall p :: p in rows1 <==> p in rows0 && !(lo <= p < hi && InBand(lo0, hi0, p)))
    && (forall p :: p in rows1 ==> rows1[p] == rows0[p])
    && (forall p :: InBand(lo1, hi1, p) <==> InBand(lo0, hi0, p) && if atHead then p >= hi else p < lo)
    && (forall p :: head <= p < tail && !(lo <= p < hi) ==> L.At(v1, p) == L.At(v0, p))
  }

  /** The rows left after the band positions of a claimed run are deleted. */
  function RowsLeft(rows: map<int, Bytes>, lo: int, hi: int, preLo: int, preHi: int): (rows': map<int, Bytes>)
  {
    rows - set p | lo <= p < hi && InBand(preLo, preHi, p)
  }

  lemma ClaimedIs(v0: seq<Option<Bytes>>, v1: seq<Option<Bytes>>, rows: map<int, Bytes>,
                  lo0: int, hi0: int, lo1: int, hi1: int, head: int, tail: int, atHead: bool, want: int,
                  lo: int, hi: int, taken: seq<Bytes>)
    requires |v0| > 0 && |v1| == |v0| && 0 <= want <= tail - head && tail < head + |v1|
    requires lo == (if atHead then head else tail - want) && hi == if atHead then head + want else tail
    requires var run := Contents(v0, rows, lo0, hi0, lo, hi); taken == if atHead then run else Reverse(run)
    requires var b := if atHead then hi else lo;
             forall p :: InBand(lo1, hi1, p) <==> InBand(lo0, hi0, p) && (if atHead then p >= b else p < b)
    requires forall p :: head <= p < head + |v1| && !(lo <= p < hi) ==> L.At(v1, p) == L.At(v0, p)
    ensures Claimed(v0, v1, rows, RowsLeft(rows, lo, hi, lo0, hi0), lo0, hi0, lo1, hi1, head, tail, atHead, want, taken)
  {
    hide Contents, Reverse;
  }

  /** Such a pop takes a run off one end and leaves the rest. */
  lemma PopIs(v0: seq<Option<Bytes>>, v1: seq<Option<Bytes>>, rows0: map<int, Bytes>, rows1: map<int, Bytes>,
              lo0: int, hi0: int, lo1: int, hi1: int, head: int, tail: int, atHead: bool, want: int, taken: seq<Bytes>)
    requires |v0| > 0 && 0 <= want <= tail - head && |v1| > 0
    requires lo0 < hi0 ==> head <= lo0 && hi0 <= tail
    requires Claimed(v0, v1, rows0, rows1, lo0, hi0, lo1, hi1, head, tail, atHead, want, taken)
    ensures Outside(rows1, lo1, hi1) == Outside(rows0, lo0, hi0) && (Stored(rows0) ==> Stored(rows1))
    ensures taken == Taken(Contents(v0, rows0, lo0, hi0, head, tail), atHead, want)
    ensures var h, t := if atHead then head + want else head, if atHead then tail else tail - want;
            Contents(v1, rows1, lo1, hi1, h, t) == Left(Contents(v0, rows0, lo0, hi0, head, tail), atHead, want)
  {
    hide Contents, Reverse, Taken, Left, Fits;
    PopBand(rows0, rows1, lo0, hi0, lo1, hi1, head, tail,
            if atHead then head else tail - want, if atHead then head + want else tail, atHead);
    PopTaken(v0, rows0, lo0, hi0, head, tail, atHead, want);
    ContentsPop(v0, v1, rows0, rows1, lo0, hi0, lo1, hi1, head, tail, atHead, want);
  }

  lemma ContentsSlice(view: seq<Option<Bytes>>, rows: map<int, Bytes>, preLo: int, preHi: int,
                      head: int, tail: int, a: int, b: int)
    requires |view| > 0 && head <= a <= b <= tail
    ensures Contents(view, rows, preLo, preHi, a, b) == Contents(view, rows, preLo, preHi, head, tail)[a - head..b - head]
  {
  }

  /** A resident stretch of the seen list is what the ring scan sees. */
  lemma SeenHits(view: seq<Option<Bytes>>, rows: map<int, Bytes>, preLo: int, preHi: int, lo: int, hi: int, target: Bytes)
    requires |view| > 0 && lo <= hi && (lo == hi || hi <= preLo || preHi <= lo || preLo == preHi)
    ensures Matches(Seen(view, rows, preLo, preHi, lo, hi), Some(target)) == L.Hits(view, lo, hi, target)
  {
  }

  lemma SeenConcat(view: seq<Option<Bytes>>, rows: map<int, Bytes>, preLo: int, preHi: int,
                   lo: int, mid: int, hi: int, target: Bytes)
    requires |view| > 0 && lo <= mid <= hi
    ensures Seen(view, rows, preLo, preHi, lo, hi) == Seen(view, rows, preLo, preHi, lo, mid) + Seen(view, rows, preLo, preHi, mid, hi)
    ensures Matches(Seen(view, rows, preLo, preHi, lo, hi), Some(target))
         == Matches(Seen(view, rows, preLo, preHi, lo, mid), Some(target))
          + Matches(Seen(view, rows, preLo, preHi, mid, hi), Some(target))
  {
  }

  /** v confined to [lo, hi]. */
  function ClampRange(v: int, lo: int, hi: int): (r: int)
    ensures lo <= hi ==> lo <= r <= hi
    ensures lo <= v <= hi ==> r == v
  {
    if v < lo then lo else if v > hi then hi else v
  }

  /** The three segments of a scan, in search order, are one scan of the whole range. */
  lemma SegmentsUp(view: seq<Option<Bytes>>, rows: map<int, Bytes>, preLo: int, preHi: int,
                   lo: int, bLo: int, bHi: int, hi: int, target: Bytes, c: Collector)
    requires |view| > 0 && lo <= bLo <= bHi <= hi
    requires bLo == bHi || (preLo <= bLo && bHi <= preHi)
    requires (bLo <= preLo || lo == bLo || preLo == preHi) && (preHi <= bHi || bHi == hi || preLo == preHi)
    ensures ScanUp(Matches(Seen(view, rows, preLo, preHi, lo, hi), Some(target)), lo, c)
         == ScanUp(L.Hits(view, bHi, hi, target), bHi,
              ScanUp(Matches(RowView(rows, bLo, bHi), Some(target)), bLo,
                ScanUp(L.Hits(view, lo, bLo, target), lo, c)))
  {
    hide ScanUp;
    SeenConcat(view, rows, preLo, preHi, lo, bLo, hi, target);
    SeenConcat(view, rows, preLo, preHi, bLo, bHi, hi, target);
    SeenHits(view, rows, preLo, preHi, lo, bLo, target);
    SeenHits(view, rows, preLo, preHi, bHi, hi, target);
    SeenRows(view, rows, preLo, preHi, bLo, bHi, target);
    var a, b, z := L.Hits(view, lo, bLo, target), Matches(RowView(rows, bLo, bHi), Some(target)), L.Hits(view, bHi, hi, target);
    ScanUpConcat(a, b + z, lo, c);
    ScanUpConcat(b, z, bLo, ScanUp(a, lo, c));
  }

  lemma SegmentsDown(view: seq<Option<Bytes>>, rows: map<int, Bytes>, preLo: int, preHi: int,
                     lo: int, bLo: int, bHi: int, hi: int, target: Bytes, c: Collector)
    requires |view| > 0 && lo <= bLo <= bHi <= hi
    requires bLo == bHi || (preLo <= bLo && bHi <= preHi)
    requires (bLo <= preLo || lo == bLo || preLo == preHi) && (preHi <= bHi || bHi == hi || preLo == preHi)
    ensures ScanDown(Matches(Seen(view, rows, preLo, preHi, lo, hi), Some(target)), lo, c)
         == ScanDown(L.Hits(view, lo, bLo, target), lo,
              ScanDown(Matches(RowView(rows, bLo, bHi), Some(target)), bLo,
                ScanDown(L.Hits(view, bHi, hi, target), bHi, c)))
  {
    hide ScanDown;
    SeenConcat(view, rows, preLo, preHi, lo, bLo, hi, target);
    SeenConcat(view, rows, preLo, preHi, bLo, bHi, hi, target);
    SeenHits(view, rows, preLo, preHi, lo, bLo, target);
    SeenHits(view, rows, preLo, preHi, bHi, hi, target);
    SeenRows(view, rows, preLo, preHi, bLo, bHi, target);
    var a, b, z := L.Hits(view, lo, bLo, target), Matches(RowView(rows, bLo, bHi), Some(target)), L.Hits(view, bHi, hi, target);
    ScanDownConcat(a, b + z, lo, c);
    ScanDownConcat(b, z, bLo, c);
  }

  lemma SeenRows(view: seq<Option<Bytes>>, rows: map<int, Bytes>, preLo: int, preHi: int, lo: int, hi: int, target: Bytes)
    requires |view| > 0 && lo <= hi && (lo == hi || (preLo <= lo && hi <= preHi))
    ensures Matches(Seen(view, rows, preLo, preHi, lo, hi), Some(target)) == Matches(RowView(rows, lo, hi), Some(target))
  {
  }

  lemma PositionsFrom(view: seq<Option<Bytes>>, rows: map<int, Bytes>, preLo: int, preHi: int, head: int, tail: int,
                      eLo: int, eHi: int, target: Bytes, backward: bool, skip: int, want: int)
    requires |view| > 0 && head <= eLo <= eHi <= tail
    ensures var c := Collector(head, skip, want, [], false);
            var hits := Matches(Seen(view, rows, preLo, preHi, eLo, eHi), Some(target));
            Scanned(Seen(view, rows, preLo, preHi, head, tail), Some(target), backward, skip, want, eLo - head, eHi - head) ==
            if backward then ScanDown(hits, eLo, c).out else ScanUp(hits, eLo, c).out
  {
    hide ScanUp, ScanDown;
    var s := Seen(view, rows, preLo, preHi, head, tail);
    var hits := Matches(Seen(view, rows, preLo, preHi, eLo, eHi), Some(target));
    var c := Collector(0, skip, want, [], false);
    assert Seen(view, rows, preLo, preHi, eLo, eHi) == s[eLo - head..eHi - head];
    ScanUpShift(hits, eLo - head, c, head);
    ScanDownShift(hits, eLo - head, c, head);
  }

  /** The running size is the elements' listpack size or ahead of it, and the flag is set past the budget and
      whenever the size is ahead. */
  ghost predicate SizeTracks(elems: seq<Bytes>, lpBytes: int, everLarge: bool)
  {
    lpBytes >= ListBytes(elems) && (lpBytes > LISTPACK_MAX_BYTES || lpBytes > ListBytes(elems) ==> everLarge)
  }

  /** How far it is ahead. */
  ghost function Ahead(elems: seq<Bytes>, lpBytes: int): (n: int)
  {
    lpBytes - ListBytes(elems)
  }

  /** Reading the kept slots is keeping the read slots. */
  lemma {:induction false} TextsOfKept(s: seq<Option<Bytes>>, from: int, del: set<int>)
    ensures Texts(Kept(s, from, del)) == Kept(Texts(s), from, del)
    decreases |s|
  {
    if s != [] {
      TextsOfKept(s[1..], from + 1, del);
      assert Texts(s)[1..] == Texts(s[1..]);
      var rest := Kept(s[1..], from + 1, del);
      assert Texts([s[0]] + rest) == [Text(s[0])] + Texts(rest);
      assert [] + rest == rest;
    }
  }
}
