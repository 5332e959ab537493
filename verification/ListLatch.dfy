/** The life of the sticky size flag over whole runs (f1srv/list.go, everLarge). */
module ListLatch {
  import opened Bytes
  import opened ListSize
  import opened ListSpec
  import opened ListPushes
  import opened ListCells
  import opened RowStore

  /** What every state of a list keeps: a missing list is plain, and a list past the budget has latched. */
  predicate Latched(d: Deque)
  {
    && (d.elems == [] ==> !d.large)
    && (ListBytes(d.elems) > LISTPACK_MAX_BYTES ==> d.large)
  }

  lemma CoherentLatched(c: Cell)
    requires Coherent(c)
    ensures Latched(c.d)
  {
    assert ListBytes([]) == LIST_HEADER_BYTES;
    hide ListBytes;
  }

  /** The flag falls to the rotation of a list of one element that is within the budget once it lies in a row. */
  predicate Unlatches(c: Cell, m: Command)
  {
    m.RotateC? && |c.d.elems| == 1 && ListBytes(Retired(c).d.elems) <= LISTPACK_MAX_BYTES
  }

  lemma GrownKeeps(c: Cell, run: seq<Bytes>, atHead: bool, hot: bool)
    requires c.d.elems != [] && c.d.large
    ensures Grown(c, run, atHead, hot).d.large && Grown(c, run, atHead, hot).d.elems != []
  {
    hide ListBytes, Pushed;
    PushedLength(c.d.elems, run, atHead);
  }

  lemma PushKeeps(c: Cell, run: seq<Bytes>, atHead: bool, requireExisting: bool, room: bool)
    requires c.d.elems != [] && c.d.large
    ensures PushIn(c, run, atHead, requireExisting, room).0.d.large
  {
    hide AllFit, Landed, Grown, Lay;
    GrownKeeps(c, run, atHead, true);
    GrownKeeps(c, run, atHead, c.row.Some? && room);
  }

  lemma PipeKeeps(c: Cell, elems: seq<Bytes>, bnd: seq<int>, atHead: bool, requireExisting: bool, room: bool)
    requires c.d.elems != [] && c.d.large
    ensures PipeIn(c, elems, bnd, atHead, requireExisting, room).0.d.large
  {
    hide AllFit, Landed, Grown, Lay;
    GrownKeeps(c, elems, atHead, true);
    GrownKeeps(c, elems, atHead, c.row.Some? && room);
    GrownKeeps(c, elems[..Landed(elems)], atHead, false);
  }

  lemma PopKeeps(c: Cell, fromHead: bool, count: Option<nat>)
    requires c.d.elems != [] && c.d.large
    ensures var c' := Popped(c, fromHead, count).0; c'.d.elems != [] ==> c'.d.large
    ensures |c.d.elems| > Wanting(count) ==> Popped(c, fromHead, count).0.d.elems != []
  {
    hide ListBytes, Taken, Left;
  }

  /** A rotation keeps a large list large exactly when another element stays behind, or the one element
      is past the budget by itself. */
  lemma RotateKeeps(c: Cell, from: bool, to: bool)
    requires Coherent(c) && c.d.elems != [] && c.d.large
    ensures RotateIn(c, from, to).0.d.large <==> |c.d.elems| > 1 || ListBytes(Retired(c).d.elems) > LISTPACK_MAX_BYTES
  {
    hide ListBytes, Retired, PushIn, Pop, Popped, Push, Pushed, Coherent;
    RetiredExact(c);
    var was := if Fast(c, from) then c else Retired(c);
    PoppedFits(was, from);
    PoppedCoherent(was, from, None);
    PopKeeps(was, from, None);
    PopBulk(was.d, from);
    PoppedIsPop(was, from, None);
    var (c', popped) := Popped(was, from, None);
    AfterFits(popped, c', to);
    if |c.d.elems| == 1 {
      PopOnly(was.d, from);
      assert was == Retired(c) && was.d.elems == [popped.v];
      PushOnly(popped.v, to);
    } else {
      PushLarge(c'.d, popped.v, to);
    }
  }

  lemma PopOnly(d: Deque, from: bool)
    requires |d.elems| == 1
    ensures Pop(d, from, None) == (Missing, Bulk(d.elems[0]))
  {
    TakenOne(d.elems, from);
  }

  lemma PushOnly(v: Bytes, to: bool)
    ensures Push(Missing, [v], to, false).0 == Edited(Missing, [v])
  {
    assert Pushed([], [v], to) == [v];
  }

  lemma PushLarge(d: Deque, v: Bytes, to: bool)
    requires d.large
    ensures Push(d, [v], to, false).0.large
  {
    hide ListBytes, Pushed;
    PushedLength(d.elems, [v], to);
  }

  /** Every other command keeps the flag of a list that survives it. */
  lemma ActKeeps(c: Cell, m: Command)
    requires Coherent(c) && Sendable(m) && c.d.elems != [] && c.d.large && ActOn(c, m).0.d.elems != []
    ensures ActOn(c, m).0.d.large <==> !Unlatches(c, m)
  {
    hide ListBytes, Pushed, Popped, Removed, FirstIndex, RotateIn, PushIn, PipeIn, PosAt, LRange, Retired, Coherent;
    RetiredExact(c);
    match m
    case PushC(run, atHead, requireExisting, room) => PushKeeps(c, run, atHead, requireExisting, room);
    case PipeC(elems, bnd, atHead, requireExisting, room) => PipeKeeps(c, elems, bnd, atHead, requireExisting, room);
    case PopC(fromHead, count) =>
      PopKeeps(c, fromHead, count);
      PopKeeps(Retired(c), fromHead, count);
    case RotateC(from, to) => RotateKeeps(c, from, to);
    case _ =>
  }

  /** The state after the first i commands of a run. */
  function After(c: Cell, cs: seq<Command>, i: nat): (c': Cell)
    requires i <= |cs| && forall m :: m in cs ==> Sendable(m)
  {
    if i == 0 then c else ActOn(After(c, cs, i - 1), cs[i - 1]).0
  }

  /** Over every run, from a missing list on, a list past the budget has latched. */
  lemma {:induction false} RunLatched(c: Cell, cs: seq<Command>, n: nat)
    requires Coherent(c) && n <= |cs| && forall m :: m in cs ==> Sendable(m)
    ensures Coherent(After(c, cs, n)) && Latched(After(c, cs, n).d)
  {
    hide Latched, ActOn, Coherent;
    CoherentLatched(c);
    if n > 0 {
      RunLatched(c, cs, n - 1);
      ActCoherent(After(c, cs, n - 1), cs[n - 1]);
      CoherentLatched(After(c, cs, n));
    }
  }

  /** A list that was past the budget at step i, lived through every step to n, and was never rotated
      as one small element, still reads as large at n. */
  lemma {:induction false} RunKeeps(c: Cell, cs: seq<Command>, i: nat, n: nat)
    requires Coherent(c) && i <= n <= |cs| && forall m :: m in cs ==> Sendable(m)
    requires ListBytes(After(c, cs, i).d.elems) > LISTPACK_MAX_BYTES
    requires forall k :: i <= k <= n ==> After(c, cs, k).d.elems != []
    requires forall k :: i <= k < n ==> !Unlatches(After(c, cs, k), cs[k])
    ensures After(c, cs, n).d.large
  {
    hide ActOn, Unlatches, ListBytes, Coherent;
    RunLatched(c, cs, n);
    if n > i {
      RunKeeps(c, cs, i, n - 1);
      RunLatched(c, cs, n - 1);
      ActKeeps(After(c, cs, n - 1), cs[n - 1]);
    }
  }

  lemma LongBytes(long: Bytes, b: Bytes)
    requires |long| > LISTPACK_MAX_BYTES
    ensures ListBytes([long, b]) > LISTPACK_MAX_BYTES
  {
    EntryBytesOfOne(long);
    EntryBytesPositive(b);
    assert EntrySize(long) > |long|;
    hide EntrySize;
    assert [long, b] == [long] + [b];
    ListBytesConcat([long], [b]);
  }

  lemma OneByteEntry(b: Byte)
    ensures ListBytes([[b]]) <= LISTPACK_MAX_BYTES
  {
    EntryBytesOfOne([b]);
  }

  /** The flag does clear while the list lives: push a long element and a one-byte one, pop the long
      one, rotate. */
  lemma FlagClears(long: Bytes, b: Byte)
    requires LISTPACK_MAX_BYTES < |long| <= VALUE_MAX
    ensures var cs := [PushC([long, [b]], false, false, false), PopC(true, None), RotateC(true, false)];
            && After(Gone(map[]), cs, 2).d == Deque([[b]], true)
            && After(Gone(map[]), cs, 3).d == Deque([[b]], false)
  {
    hide ListBytes;
    var cs := [PushC([long, [b]], false, false, false), PopC(true, None), RotateC(true, false)];
    var c0 := Gone(map[]);
    var c1, c2 := After(c0, cs, 1), After(c0, cs, 2);
    assert After(c0, cs, 0) == c0;
    LongBytes(long, [b]);
    assert [] + [long, [b]] == [long, [b]];
    assert c1.d == Deque([long, [b]], true) && !c1.hot && c1.row.Some?;
    assert c1.d.elems[1..] == [[b]];
    assert c2.d == Deque([[b]], true) && !c2.hot;
    OneByteEntry(b);
    OnlyRotated(c2, [b]);
  }

  lemma OnlyRotated(c: Cell, v: Bytes)
    requires !c.hot && c.d.elems == [v] && Fits(v)
    ensures RotateIn(c, true, false).0.d == Edited(Missing, [v])
  {
    hide ListBytes, Fits;
    PopOnly(c.d, true);
    PushOnly(v, false);
    assert AllFit([v]);
  }
}
