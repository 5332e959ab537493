/** Runs in which the store refuses a value, from an empty server on (f1srv/list.go, f1srv/listwinreg.go).  In each,
    `big` stands for any element of more than 65535 bytes. */
module ListLimits {
  import opened Bytes
  import opened ListSize
  import opened ListSpec
  import opened ListCells
  import opened ListKeys
  import opened RowKeys
  import opened RowStore

  function Piped(elems: seq<Bytes>, bnd: seq<int>): (c: Command)
  {
    PipeC(elems, bnd, false, false, true)
  }

  function Pushing(run: seq<Bytes>): (c: Command)
  {
    PushC(run, false, false, true)
  }

  /** A push of one such element is refused and makes no list. */
  lemma PushRefused(k: Bytes, big: Bytes)
    requires Named(k) && !Fits(big)
    ensures ActAll(Nothing({k}), [On(k, Piped([big], [1]))]) == (Nothing({k}), [Several([Refused])])
    ensures ActAll(Nothing({k}), [On(k, Pushing([big]))]) == (Nothing({k}), [Refused])
  {
    hide Named, Fits, ActAll, ListBytes;
    var none := Nothing({k});
    var q, p := On(k, Piped([big], [1])), On(k, Pushing([big]));
    RunFour(none, q, q, q, q);
    RunFour(none, p, p, p, p);
    assert big in [big];
    var c := Gone(map[]);
    assert Landed([big]) == 0;
    assert PushIn(c, [big], false, false, true) == (c, Refused);
    assert CutReplies(0, [1], 0) == [Refused];
    assert PipeIn(c, [big], [1], false, false, true) == (c, [Refused]);
    assert none[k := c] == none;
  }

  /** LINSERT among rows counts the refused value, and an empty element shows in its place. */
  lemma InsertLost(k: Bytes, x: Bytes, big: Bytes)
    requires Named(k) && Fits(x) && x != [] && !Fits(big)
    ensures var (cells, replies) := ActAll(Nothing({k}), [On(k, Pushing([x])), On(k, InsertC(x, big, true))]);
            replies == [Number(1), Number(2)] && cells[k].d.elems == [[], x]
  {
    hide Named, Fits, ActAll, ListBytes, PushIn;
    var none := Nothing({k});
    var q0, q1 := On(k, Pushing([x])), On(k, InsertC(x, big, true));
    RunFour(none, q0, q1, q1, q1);
    PushFresh([x]);
    var c0 := Act(none, q0).0;
    assert c0[k] == Rows([x]) && FirstIndex([x], x) == Some(0);
    assert InsertedAt([x], 0, []) == [[], x];
  }

  /** A resident list takes the value; the pop that empties it finds it gone. */
  lemma RetiredLost(k: Bytes, x: Bytes, y: Bytes, big: Bytes)
    requires Named(k) && Fits(x) && x != [] && Fits(y) && !Fits(big)
    ensures var qs := [On(k, Pushing([x])), On(k, Pushing([y])), On(k, InsertC(x, big, true)), On(k, PopC(true, Some(3)))];
            && ActAll(Nothing({k}), qs).1 == [Number(1), Number(2), Number(3), Array([[], x, y])]
            && ActAll(Nothing({k}), qs[..3]).0[k].d.elems == [big, x, y]
  {
    hide Named, Fits, ActAll, ListBytes, PushIn;
    var none := Nothing({k});
    var q0, q1 := On(k, Pushing([x])), On(k, Pushing([y]));
    var q2, q3 := On(k, InsertC(x, big, true)), On(k, PopC(true, Some(3)));
    RunFour(none, q0, q1, q2, q3);
    assert [q0, q1, q2, q3][..3] == [q0, q1, q2];
    PushFresh([x]);
    PushSecond(x, y);
    var c0 := Act(none, q0).0;
    assert c0[k] == Rows([x]);
    var c1 := Act(c0, q1).0;
    assert c1[k].d.elems == [x, y] && c1[k].hot && c1[k].row == Some((0, 2)) && c1[k].rest == map[];
    assert FirstIndex([x, y], x) == Some(0);
    var c2 := Act(c1, q2).0;
    assert c2[k].d.elems == [big, x, y] && c2[k].hot && c2[k].row.Some? && c2[k].rest == map[];
    PopAll(c2[k], big, x, y);
  }

  lemma PopAll(c: Cell, big: Bytes, x: Bytes, y: Bytes)
    requires c.hot && c.row.Some? && c.rest == map[] && c.d.elems == [big, x, y] && !Fits(big) && Fits(x) && Fits(y)
    ensures PopIn(c, true, Some(3)).1 == Array([[], x, y])
  {
    hide ListBytes, Fits;
    assert Written([big, x, y], map[], c.head) == [[], x, y];
    assert [[], x, y][..3] == [[], x, y];
  }

  /** Three pipelined pushes onto a missing key, the second refused: folded, the third fails with it. */
  lemma FoldedDiffers(k: Bytes, a: Bytes, b: Bytes, big: Bytes)
    requires Named(k) && Fits(a) && Fits(b) && !Fits(big)
    ensures var (cells, replies) := ActAll(Nothing({k}), [On(k, Piped([a, big, b], [1, 2, 3]))]);
            replies == [Several([Number(1), Refused, Refused])] && cells[k].d.elems == [a]
    ensures var (cells, replies) := ActAll(Nothing({k}), [On(k, Pushing([a])), On(k, Pushing([big])), On(k, Pushing([b]))]);
            replies == [Number(1), Refused, Number(2)] && cells[k].d.elems == [a, b]
  {
    hide Named, Fits, ActAll, ListBytes, PushIn;
    var none := Nothing({k});
    var q := On(k, Piped([a, big, b], [1, 2, 3]));
    RunFour(none, q, q, q, q);
    FoldedThree(a, b, big);
    var q0, q1, q2 := On(k, Pushing([a])), On(k, Pushing([big])), On(k, Pushing([b]));
    RunFour(none, q0, q1, q2, q2);
    PushFresh([a]);
    var c0 := Act(none, q0).0;
    RefusedLeaves(Rows([a]), big);
    var c1 := Act(c0, q1).0;
    assert c1[k] == Rows([a]);
    PushSecond(a, b);
  }

  lemma FoldedThree(a: Bytes, b: Bytes, big: Bytes)
    requires Fits(a) && Fits(b) && !Fits(big)
    ensures var (c, rs) := PipeIn(Gone(map[]), [a, big, b], [1, 2, 3], false, false, true);
            rs == [Number(1), Refused, Refused] && c.d.elems == [a]
  {
    hide Fits, ListBytes;
    var s := [a, big, b];
    assert s[1] == big && s[0] == a;
    assert Landed(s) == 1;
    assert !AllFit(s);
    assert s[..1] == [a] && [] + [a] == [a];
    assert CutReplies(0, [1, 2, 3], 1) == [Number(1), Refused, Refused];
  }

  lemma RefusedLeaves(c: Cell, big: Bytes)
    requires !Fits(big)
    ensures PushIn(c, [big], false, false, true) == (c, Refused)
  {
    hide Fits;
    assert big in [big] && [big][..0] == [];
    assert Landed([big]) == 0;
  }

  /** A pipeline that meets a resident list: the first push is answered with a length, and its element is in no
      list afterwards. */
  lemma AcknowledgedLost(k: Bytes, x: Bytes, y: Bytes, z: Bytes, big: Bytes)
    requires Named(k) && Fits(x) && Fits(y) && Fits(z) && !Fits(big)
    ensures var (cells, replies) := ActAll(Nothing({k}), [On(k, Pushing([x])), On(k, Pushing([y])), On(k, Piped([z, big], [1, 2]))]);
            replies == [Number(1), Number(2), Several([Number(3), Refused])] && cells[k].d.elems == [x, y]
  {
    hide Named, Fits, ActAll, ListBytes, PushIn;
    var none := Nothing({k});
    var q0, q1, q2 := On(k, Pushing([x])), On(k, Pushing([y])), On(k, Piped([z, big], [1, 2]));
    RunFour(none, q0, q1, q2, q2);
    PushFresh([x]);
    PushSecond(x, y);
    var c0 := Act(none, q0).0;
    var c1 := Act(c0, q1).0;
    assert c1[k].d.elems == [x, y] && c1[k].hot && c1[k].row == Some((0, 2));
    CutHot(c1[k], z, big);
  }

  lemma CutHot(c: Cell, z: Bytes, big: Bytes)
    requires c.hot && c.row == Some((0, 2)) && Fits(z) && !Fits(big)
    ensures var (c', rs) := PipeIn(c, [z, big], [1, 2], false, false, true);
            c'.d == c.d && rs == [Number(3), Refused]
  {
    hide Fits, ListBytes, Lay;
    var s := [z, big];
    assert s[0] == z && s[1] == big;
    assert Landed(s) == 1 && !AllFit(s);
    assert CutReplies(2, [1, 2], 1) == [Number(3), Refused];
  }

  /** A refused push leaves a row behind, and a refused LINSERT at that place brings it into the list. */
  lemma StrayShows(k: Bytes, x: Bytes, y: Bytes, big: Bytes)
    requires Named(k) && Fits(x) && x != [] && Fits(y) && !Fits(big)
    ensures var (cells, replies) := ActAll(Nothing({k}), [On(k, Pushing([x])), On(k, Pushing([y, big])), On(k, InsertC(x, big, false))]);
            replies == [Number(1), Refused, Number(2)] && cells[k].d.elems == [x, y]
  {
    hide Named, Fits, ActAll, ListBytes, PushIn;
    var none := Nothing({k});
    var q0, q1, q2 := On(k, Pushing([x])), On(k, Pushing([y, big])), On(k, InsertC(x, big, false));
    RunFour(none, q0, q1, q2, q2);
    PushFresh([x]);
    var c0 := Act(none, q0).0;
    assert c0[k] == Rows([x]);
    StrayLeft(x, y, big);
    var c1 := Act(c0, q1).0;
    assert c1[k] == Rows([x]).(rest := map[1 := y]);
    assert FirstIndex([x], x) == Some(0) && InsertedAt([x], 1, y) == [x, y];
  }

  lemma StrayLeft(x: Bytes, y: Bytes, big: Bytes)
    requires Fits(y) && !Fits(big)
    ensures PushIn(Rows([x]), [y, big], false, false, true) == (Rows([x]).(rest := map[1 := y]), Refused)
  {
    hide Fits, ListBytes;
    var s := [y, big];
    assert s[0] == y && s[1] == big && s[..1] == [y];
    assert Landed(s) == 1 && !AllFit(s);
    assert Lay(map[], [], 0, 1, false) == map[] && [y][..0] == [];
    assert Lay(map[], [y], 0, 1, false) == map[1 := y];
  }
}
