/** Pipelined pushes folded into one, against the same pushes one after another: the two agree unless the store
    refuses an element, and then only in one shape of pipeline (f1srv/list.go, cmdPush and cmdPushCoalesced). */
module ListPipes {
  import opened Bytes
  import opened ListSize
  import opened ListSpec
  import opened ListPushes
  import opened ListCells
  import opened Pipeline
  import opened RowStore

  /** The elements of command i. */
  function Part(elems: seq<Bytes>, bnd: seq<int>, i: int): (run: seq<Bytes>)
    requires Boundaries(bnd, |elems|) && 0 <= i < |bnd|
    ensures run != []
  {
    elems[Start(bnd, i)..bnd[i]]
  }

  /** The first k pushes, one command after another; rooms[i] says whether command i finds room for a window. */
  function EachIn(c: Cell, elems: seq<Bytes>, bnd: seq<int>, rooms: seq<bool>, k: int, atHead: bool, requireExisting: bool)
    : (r: (Cell, seq<Reply>))
    requires Boundaries(bnd, |elems|) && |rooms| == |bnd| && 0 <= k <= |bnd|
    ensures |r.1| == k
  {
    if k == 0 then (c, [])
    else
      var (c1, replies) := EachIn(c, elems, bnd, rooms, k - 1, atHead, requireExisting);
      var (c2, reply) := PushIn(c1, Part(elems, bnd, k - 1), atHead, requireExisting, rooms[k - 1]);
      (c2, replies + [reply])
  }

  /** Whether folding the pipeline goes unnoticed: the store takes every element; or the list the commands ask for
      is missing; or every command from the first refused element on has one, and that element opens its command
      or, on a resident list, is in the first. */
  ghost predicate Folds(c: Cell, elems: seq<Bytes>, bnd: seq<int>, requireExisting: bool)
    requires Boundaries(bnd, |elems|)
  {
    var f := Landed(elems);
    || AllFit(elems)
    || (requireExisting && c.d.elems == [])
    || ((forall i :: 0 <= i < |bnd| && bnd[i] > f ==> !AllFit(Part(elems, bnd, i)))
        && if c.hot then bnd[0] > f else f == 0 || f in bnd)
  }

  /** X pushes onto a resident list without a header row, which answer 0 instead of an error. */
  predicate Mute(c: Cell, requireExisting: bool)
  {
    requireExisting && c.row.None?
  }

  /** The pushes keep the list coherent and as long, and an error answers exactly those with a refused element. */
  lemma {:induction false} EachKeeps(c: Cell, elems: seq<Bytes>, bnd: seq<int>, rooms: seq<bool>, k: int,
                                     atHead: bool, requireExisting: bool)
    requires Coherent(c) && Boundaries(bnd, |elems|) && |rooms| == |bnd| && 0 <= k <= |bnd|
    requires requireExisting ==> c.d.elems != []
    ensures var (c', rs) := EachIn(c, elems, bnd, rooms, k, atHead, requireExisting);
            && Coherent(c') && |c'.d.elems| >= |c.d.elems| && Mute(c', requireExisting) == Mute(c, requireExisting)
            && forall i :: 0 <= i < k ==> (rs[i] == Refused <==> !AllFit(Part(elems, bnd, i)) && !Mute(c, requireExisting))
  {
    hide Coherent, PushIn, Part, AllFit, Mute;
    if k > 0 {
      EachKeeps(c, elems, bnd, rooms, k - 1, atHead, requireExisting);
      var c1 := EachIn(c, elems, bnd, rooms, k - 1, atHead, requireExisting).0;
      PushKeeps(c1, Part(elems, bnd, k - 1), atHead, requireExisting, rooms[k - 1]);
    }
  }

  lemma PushKeeps(c: Cell, run: seq<Bytes>, atHead: bool, requireExisting: bool, room: bool)
    requires Coherent(c) && run != [] && (requireExisting ==> c.d.elems != [])
    ensures var (c', reply) := PushIn(c, run, atHead, requireExisting, room);
            && Coherent(c') && Mute(c', requireExisting) == Mute(c, requireExisting)
            && |c'.d.elems| == |c.d.elems| + (if AllFit(run) then |run| else 0)
            && (reply == Refused <==> !AllFit(run) && !Mute(c, requireExisting))
  {
    hide ListBytes, Fits, Lay, Pushed, Outside;
    PushCoherent(c, run, atHead, requireExisting, room);
    PushedLength(c.d.elems, run, atHead);
  }

  /** Commands that all fit are the plain deque's. */
  lemma {:induction false} EachPlain(c: Cell, elems: seq<Bytes>, bnd: seq<int>, rooms: seq<bool>, k: int,
                                     atHead: bool, requireExisting: bool)
    requires Coherent(c) && Boundaries(bnd, |elems|) && |rooms| == |bnd| && 0 <= k <= |bnd|
    requires requireExisting ==> c.d.elems != []
    requires forall i :: 0 <= i < k ==> AllFit(Part(elems, bnd, i))
    ensures var (c', rs) := EachIn(c, elems, bnd, rooms, k, atHead, requireExisting);
            (c'.d, rs) == PushEach(c.d, elems, bnd, k, atHead, requireExisting)
  {
    hide PushIn, Push, AllFit, Coherent;
    if k > 0 {
      EachPlain(c, elems, bnd, rooms, k - 1, atHead, requireExisting);
      EachKeeps(c, elems, bnd, rooms, k - 1, atHead, requireExisting);
      var c1 := EachIn(c, elems, bnd, rooms, k - 1, atHead, requireExisting).0;
      PushExact(c1, Part(elems, bnd, k - 1), atHead, requireExisting, rooms[k - 1]);
    }
  }

  lemma PushStops(c: Cell, run: seq<Bytes>, atHead: bool, requireExisting: bool, room: bool)
    requires Coherent(c) && run != [] && (requireExisting ==> c.d.elems != []) && !AllFit(run)
    ensures var (c', reply) := PushIn(c, run, atHead, requireExisting, room);
            c'.d == c.d && reply == if Mute(c, requireExisting) then Number(0) else Refused
  {
    hide Coherent, PushIn, AllFit;
    PushExact(c, run, atHead, requireExisting, room);
  }

  /** Commands with a refused element leave the deque alone. */
  lemma {:induction false} EachStops(c: Cell, elems: seq<Bytes>, bnd: seq<int>, rooms: seq<bool>, j: int, k: int,
                                     atHead: bool, requireExisting: bool)
    requires Coherent(c) && Boundaries(bnd, |elems|) && |rooms| == |bnd| && 0 <= j <= k <= |bnd|
    requires requireExisting ==> c.d.elems != []
    requires forall i :: j <= i < k ==> !AllFit(Part(elems, bnd, i))
    ensures EachIn(c, elems, bnd, rooms, k, atHead, requireExisting).0.d == EachIn(c, elems, bnd, rooms, j, atHead, requireExisting).0.d
    ensures EachIn(c, elems, bnd, rooms, j, atHead, requireExisting).1 <= EachIn(c, elems, bnd, rooms, k, atHead, requireExisting).1
    ensures forall i :: j <= i < k ==>
              EachIn(c, elems, bnd, rooms, k, atHead, requireExisting).1[i] == if Mute(c, requireExisting) then Number(0) else Refused
  {
    hide PushIn, AllFit, Coherent, Mute, Part;
    if j < k {
      EachStops(c, elems, bnd, rooms, j, k - 1, atHead, requireExisting);
      EachKeeps(c, elems, bnd, rooms, k - 1, atHead, requireExisting);
      var c1 := EachIn(c, elems, bnd, rooms, k - 1, atHead, requireExisting).0;
      PushStops(c1, Part(elems, bnd, k - 1), atHead, requireExisting, rooms[k - 1]);
    }
  }

  /** A command that fits leaves a longer list. */
  lemma {:induction false} EachGrows(c: Cell, elems: seq<Bytes>, bnd: seq<int>, rooms: seq<bool>, j: int, k: int,
                                     atHead: bool, requireExisting: bool)
    requires Coherent(c) && Boundaries(bnd, |elems|) && |rooms| == |bnd| && 0 <= j < k <= |bnd|
    requires requireExisting ==> c.d.elems != []
    requires AllFit(Part(elems, bnd, j))
    ensures |EachIn(c, elems, bnd, rooms, k, atHead, requireExisting).0.d.elems| > |c.d.elems|
  {
    hide PushIn, AllFit, Coherent, Mute;
    EachKeeps(c, elems, bnd, rooms, k - 1, atHead, requireExisting);
    var c1 := EachIn(c, elems, bnd, rooms, k - 1, atHead, requireExisting).0;
    if j < k - 1 {
      EachGrows(c, elems, bnd, rooms, j, k - 1, atHead, requireExisting);
    }
    PushKeeps(c1, Part(elems, bnd, k - 1), atHead, requireExisting, rooms[k - 1]);
  }

  /** X pushes onto a missing list. */
  lemma {:induction false} EachMissing(c: Cell, elems: seq<Bytes>, bnd: seq<int>, rooms: seq<bool>, k: int, atHead: bool)
    requires Coherent(c) && c.d.elems == [] && Boundaries(bnd, |elems|) && |rooms| == |bnd| && 0 <= k <= |bnd|
    ensures EachIn(c, elems, bnd, rooms, k, atHead, true) == (c, Zeros(k))
  {
    hide ListBytes, Fits, AllFit, Part;
    if k == 0 {
      assert Zeros(0) == [];
    } else {
      EachMissing(c, elems, bnd, rooms, k - 1, atHead);
      LengthsStep(0, bnd, k);
    }
  }

  /** A command that ends before the first refused element. */
  lemma EarlyFits(elems: seq<Bytes>, bnd: seq<int>, i: int)
    requires Boundaries(bnd, |elems|) && 0 <= i < |bnd| && bnd[i] <= Landed(elems)
    ensures AllFit(Part(elems, bnd, i))
  {
    hide Fits;
    var s := elems[..Landed(elems)];
    assert Part(elems, bnd, i) == s[Start(bnd, i)..bnd[i]];
    forall v | v in Part(elems, bnd, i) ensures v in s {
    }
  }

  /** The command the first refused element is in. */
  lemma CutAt(elems: seq<Bytes>, bnd: seq<int>) returns (k: int)
    requires Boundaries(bnd, |elems|) && !AllFit(elems)
    ensures 0 <= k < |bnd| && Start(bnd, k) <= Landed(elems) < bnd[k]
    ensures !AllFit(Part(elems, bnd, k)) && forall i :: 0 <= i < k ==> AllFit(Part(elems, bnd, i))
    ensures forall i :: 0 <= i < |bnd| ==> (bnd[i] <= Landed(elems) <==> i < k)
    ensures Landed(elems) == 0 || Landed(elems) in bnd <==> Landed(elems) == Start(bnd, k)
  {
    hide Fits;
    var f := Landed(elems);
    k := 0;
    while bnd[k] <= f
      invariant 0 <= k < |bnd| && Start(bnd, k) <= f
    {
      k := k + 1;
    }
    assert Part(elems, bnd, k)[f - Start(bnd, k)] == elems[f];
    forall i | 0 <= i < k ensures AllFit(Part(elems, bnd, i)) {
      EarlyFits(elems, bnd, i);
    }
    if f in bnd {
      var i :| 0 <= i < |bnd| && bnd[i] == f;
      assert i == k - 1;
    }
  }

  /** What the folded pipeline leaves when it is cut short. */
  lemma PipeCut(c: Cell, elems: seq<Bytes>, bnd: seq<int>, atHead: bool, requireExisting: bool, room: bool)
    requires Coherent(c) && !AllFit(elems) && (requireExisting ==> c.d.elems != [])
    ensures var (c', rs) := PipeIn(c, elems, bnd, atHead, requireExisting, room);
            var f := Landed(elems);
            && c'.d == (if c.hot || f == 0 then c.d else Edited(c.d, Pushed(c.d.elems, elems[..f], atHead)))
            && (!c.hot ==> rs == CutReplies(|c.d.elems|, bnd, f))
            && (c.hot ==> rs == if Mute(c, requireExisting) then Zeros(|bnd|) else CutReplies(Bounds(c.row).1 - Bounds(c.row).0, bnd, f))
  {
    hide ListBytes, Fits, Lay, Pushed, CutReplies, Zeros, Outside, Landed;
  }

  /** The commands one after another, when those before k fit and those from k on do not. */
  lemma EachCut(c: Cell, elems: seq<Bytes>, bnd: seq<int>, rooms: seq<bool>, k: int, atHead: bool, requireExisting: bool)
    requires Coherent(c) && Boundaries(bnd, |elems|) && |rooms| == |bnd| && 0 <= k < |bnd|
    requires requireExisting ==> c.d.elems != []
    requires forall i :: 0 <= i < |bnd| ==> (AllFit(Part(elems, bnd, i)) <==> i < k)
    ensures var (c', rs) := EachIn(c, elems, bnd, rooms, |bnd|, atHead, requireExisting);
            && c'.d == (if k == 0 then c.d else Edited(c.d, Pushed(c.d.elems, elems[..Start(bnd, k)], atHead)))
            && forall i :: 0 <= i < |bnd| ==>
                 rs[i] == if i < k then Number(|c.d.elems| + bnd[i]) else if Mute(c, requireExisting) then Number(0) else Refused
  {
    hide Fits, AllFit, Part, Coherent, Edited, Pushed, Mute, EachIn, PushEach;
    var n := |bnd|;
    EachStops(c, elems, bnd, rooms, k, n, atHead, requireExisting);
    EachPlain(c, elems, bnd, rooms, k, atHead, requireExisting);
    if k == 0 {
      EachNone(c, elems, bnd, rooms, atHead, requireExisting);
    } else {
      PushEachIsOne(c.d, elems, bnd, k, atHead, requireExisting);
    }
    var rs, rsk := EachIn(c, elems, bnd, rooms, n, atHead, requireExisting).1, EachIn(c, elems, bnd, rooms, k, atHead, requireExisting).1;
    forall i | 0 <= i < k ensures rs[i] == Number(|c.d.elems| + bnd[i]) {
      assert rs[i] == rsk[i];
    }
  }

  lemma EachNone(c: Cell, elems: seq<Bytes>, bnd: seq<int>, rooms: seq<bool>, atHead: bool, requireExisting: bool)
    requires Boundaries(bnd, |elems|) && |rooms| == |bnd|
    ensures EachIn(c, elems, bnd, rooms, 0, atHead, requireExisting) == (c, [])
  {
  }

  /** Folding a pipeline that starts on a list kept in rows. */
  lemma FoldCold(c: Cell, elems: seq<Bytes>, bnd: seq<int>, rooms: seq<bool>, atHead: bool, requireExisting: bool,
                 room: bool, k: int)
    requires Coherent(c) && !c.hot && Boundaries(bnd, |elems|) && |rooms| == |bnd| && !AllFit(elems)
    requires requireExisting ==> c.d.elems != []
    requires 0 <= k < |bnd| && forall i :: 0 <= i < k ==> AllFit(Part(elems, bnd, i))
    requires forall i :: 0 <= i < |bnd| ==> (bnd[i] <= Landed(elems) <==> i < k)
    ensures var (c1, rs1) := PipeIn(c, elems, bnd, atHead, requireExisting, room);
            var (c2, rs2) := EachIn(c, elems, bnd, rooms, |bnd|, atHead, requireExisting);
            (c1.d, rs1) == (c2.d, rs2) <==> Start(bnd, k) == Landed(elems) && forall i :: k <= i < |bnd| ==> !AllFit(Part(elems, bnd, i))
  {
    hide Fits, AllFit, Part, Coherent, PipeIn, EachIn, Landed, Mute, Pushed, Edited, CutReplies, Boundaries;
    Speaks(c, requireExisting);
    StartIs(bnd, |elems|, k);
    var n, f := |bnd|, Landed(elems);
    var (c1, rs1) := PipeIn(c, elems, bnd, atHead, requireExisting, room);
    var (c2, rs2) := EachIn(c, elems, bnd, rooms, n, atHead, requireExisting);
    PipeCut(c, elems, bnd, atHead, requireExisting, room);
    if i :| k <= i < n && AllFit(Part(elems, bnd, i)) {
      EachKeeps(c, elems, bnd, rooms, n, atHead, requireExisting);
      assert rs1[i] == Refused != rs2[i];
    } else {
      EachCut(c, elems, bnd, rooms, k, atHead, requireExisting);
      if Start(bnd, k) == f {
        assert rs1 == rs2;
      } else {
        LongerApart(c.d, elems, Start(bnd, k), f, atHead);
      }
    }
  }

  lemma StartIs(bnd: seq<int>, n: int, k: int)
    requires Boundaries(bnd, n) && 0 <= k < |bnd|
    ensures 0 <= Start(bnd, k) <= n && (Start(bnd, k) == 0 <==> k == 0)
  {
  }

  lemma LongerApart(d: Deque, elems: seq<Bytes>, f: nat, g: nat, atHead: bool)
    requires f <= |elems| && g <= |elems| && f != g
    ensures Edited(d, Pushed(d.elems, elems[..f], atHead)).elems != Edited(d, Pushed(d.elems, elems[..g], atHead)).elems
    ensures g > 0 ==> Edited(d, Pushed(d.elems, elems[..g], atHead)).elems != d.elems
  {
    hide ListBytes, Pushed;
    PushedLength(d.elems, elems[..f], atHead);
    PushedLength(d.elems, elems[..g], atHead);
  }

  /** A list with a header row, and a missing one that is not asked for, answer an error with an error. */
  lemma Speaks(c: Cell, requireExisting: bool)
    requires Coherent(c)
    ensures !c.hot && (requireExisting ==> c.d.elems != []) ==> !Mute(c, requireExisting)
    ensures c.hot ==> c.d.elems != []
  {
    hide ListBytes, AllFit, Outside;
  }

  /** Folding a pipeline that meets a resident window. */
  lemma FoldHot(c: Cell, elems: seq<Bytes>, bnd: seq<int>, rooms: seq<bool>, atHead: bool, requireExisting: bool,
                room: bool, k: int)
    requires Coherent(c) && c.hot && Boundaries(bnd, |elems|) && |rooms| == |bnd| && !AllFit(elems)
    requires 0 <= k < |bnd| && forall i :: 0 <= i < k ==> AllFit(Part(elems, bnd, i))
    requires forall i :: 0 <= i < |bnd| ==> (bnd[i] <= Landed(elems) <==> i < k)
    ensures var (c1, rs1) := PipeIn(c, elems, bnd, atHead, requireExisting, room);
            var (c2, rs2) := EachIn(c, elems, bnd, rooms, |bnd|, atHead, requireExisting);
            (c1.d, rs1) == (c2.d, rs2) <==> forall i :: 0 <= i < |bnd| ==> !AllFit(Part(elems, bnd, i))
  {
    hide Fits, AllFit, Part, Coherent, PipeIn, EachIn, Landed, Mute, Pushed, Edited, CutReplies, Zeros, Bounds, Boundaries;
    Speaks(c, requireExisting);
    var n := |bnd|;
    PipeCut(c, elems, bnd, atHead, requireExisting, room);
    assert k > 0 ==> AllFit(Part(elems, bnd, 0));
    if i :| 0 <= i < n && AllFit(Part(elems, bnd, i)) {
      EachGrows(c, elems, bnd, rooms, i, n, atHead, requireExisting);
    } else {
      EachCut(c, elems, bnd, rooms, 0, atHead, requireExisting);
      assert PipeIn(c, elems, bnd, atHead, requireExisting, room).1 == EachIn(c, elems, bnd, rooms, n, atHead, requireExisting).1;
    }
  }

  /** The folded pipeline leaves the list and the replies of the commands one after another if and only if it folds. */
  lemma FoldExact(c: Cell, elems: seq<Bytes>, bnd: seq<int>, rooms: seq<bool>, atHead: bool, requireExisting: bool, room: bool)
    requires Coherent(c) && Boundaries(bnd, |elems|) && |rooms| == |bnd|
    ensures var (c1, rs1) := PipeIn(c, elems, bnd, atHead, requireExisting, room);
            var (c2, rs2) := EachIn(c, elems, bnd, rooms, |bnd|, atHead, requireExisting);
            (c1.d, rs1) == (c2.d, rs2) <==> Folds(c, elems, bnd, requireExisting)
  {
    hide Fits, ListBytes, PushEach, EachIn, Part;
    PipePlain(c, elems, bnd, atHead, requireExisting, room);
    if requireExisting && c.d.elems == [] {
      EachMissing(c, elems, bnd, rooms, |bnd|, atHead);
      PushEachIsOne(c.d, elems, bnd, |bnd|, atHead, requireExisting);
    } else if AllFit(elems) {
      forall i | 0 <= i < |bnd| ensures AllFit(Part(elems, bnd, i)) {
        PartFits(elems, bnd, i);
      }
      EachPlain(c, elems, bnd, rooms, |bnd|, atHead, requireExisting);
    } else {
      var k := CutAt(elems, bnd);
      hide PipeIn, AllFit, Landed;
      if c.hot {
        FoldHot(c, elems, bnd, rooms, atHead, requireExisting, room, k);
        assert forall i :: 0 <= i < |bnd| && bnd[i] <= Landed(elems) ==> AllFit(Part(elems, bnd, i));
        assert bnd[0] > Landed(elems) ==> forall i :: 0 <= i < |bnd| ==> bnd[i] > Landed(elems);
      } else {
        FoldCold(c, elems, bnd, rooms, atHead, requireExisting, room, k);
      }
    }
  }

  lemma PartFits(elems: seq<Bytes>, bnd: seq<int>, i: int)
    requires AllFit(elems) && Boundaries(bnd, |elems|) && 0 <= i < |bnd|
    ensures AllFit(Part(elems, bnd, i))
  {
    hide Fits;
  }
}
