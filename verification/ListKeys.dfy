/** Runs of list commands over any number of keys, LMOVE between them included: the server's reference and the
    plain deques (f1srv/list.go). */
module ListKeys {
  import opened Bytes
  import opened ListSize
  import opened ListSpec
  import opened ListCells
  import opened RowKeys
  import opened RowStore
  import opened Scan

  type Cells = map<Bytes, Cell>
  type Decks = map<Bytes, Deque>

  /** A command on one key, or a move between two. */
  datatype Request =
    | On(key: Bytes, c: Command)
    | Between(src: Bytes, dst: Bytes, fromHead: bool, toHead: bool)

  /** Requests of keys the store takes. */
  predicate Asks(q: Request, keys: set<Bytes>)
  {
    match q
    case On(key, c) => key in keys && Named(key) && Sendable(c)
    case Between(src, dst, _, _) => src in keys && dst in keys && Named(src) && Named(dst) && src != dst
  }

  /** What the server does. */
  function Act(cells: Cells, q: Request): (r: (Cells, Reply))
    requires Asks(q, cells.Keys)
    ensures r.0.Keys == cells.Keys
  {
    match q
    case On(key, c) =>
      var (cell, reply) := ActOn(cells[key], c);
      (cells[key := cell], reply)
    case Between(src, dst, fromHead, toHead) =>
      var (src', dst', reply) := MoveIn(cells[src], cells[dst], fromHead, toHead);
      (cells[src := src'][dst := dst'], reply)
  }

  /** What plain deques do. */
  function Answer(decks: Decks, q: Request): (r: (Decks, Reply))
    requires Asks(q, decks.Keys)
    ensures r.0.Keys == decks.Keys
  {
    match q
    case On(key, c) =>
      var (d, reply) := Apply(decks[key], c);
      (decks[key := d], reply)
    case Between(src, dst, fromHead, toHead) =>
      var (src', dst', reply) := Move(decks[src], decks[dst], fromHead, toHead);
      (decks[src := src'][dst := dst'], reply)
  }

  function ActAll(cells: Cells, qs: seq<Request>): (r: (Cells, seq<Reply>))
    requires forall q :: q in qs ==> Asks(q, cells.Keys)
    ensures r.0.Keys == cells.Keys && |r.1| == |qs|
  {
    if qs == [] then (cells, [])
    else
      var (cells1, replies) := ActAll(cells, qs[..|qs| - 1]);
      var (cells2, reply) := Act(cells1, qs[|qs| - 1]);
      (cells2, replies + [reply])
  }

  function AnswerAll(decks: Decks, qs: seq<Request>): (r: (Decks, seq<Reply>))
    requires forall q :: q in qs ==> Asks(q, decks.Keys)
    ensures r.0.Keys == decks.Keys && |r.1| == |qs|
  {
    if qs == [] then (decks, [])
    else
      var (decks1, replies) := AnswerAll(decks, qs[..|qs| - 1]);
      var (decks2, reply) := Answer(decks1, qs[|qs| - 1]);
      (decks2, replies + [reply])
  }

  function DecksOf(cells: Cells): (decks: Decks)
    ensures decks.Keys == cells.Keys
  {
    map k | k in cells :: cells[k].d
  }

  ghost predicate Sound(cells: Cells)
  {
    forall k :: k in cells ==> Coherent(cells[k])
  }

  ghost predicate AllPlaced(cells: Cells)
  {
    forall k :: k in cells ==> Placed(cells[k])
  }

  /** A request that a key's position, window, rows or header row shows through to. */
  predicate OddRequest(cells: Cells, q: Request)
    requires Asks(q, cells.Keys)
  {
    match q
    case On(key, c) => Odd(cells[key], c)
    case Between(src, dst, fromHead, _) => OddMove(cells[src], cells[dst], fromHead)
  }

  lemma ActSound(cells: Cells, q: Request)
    requires Sound(cells) && Asks(q, cells.Keys)
    ensures Sound(Act(cells, q).0)
  {
    hide ActOn, MoveIn, Coherent;
    match q
    case On(key, c) => ActCoherent(cells[key], c);
    case Between(src, dst, fromHead, toHead) => MoveCoherent(cells[src], cells[dst], fromHead, toHead);
  }

  lemma OneDeck(cells: Cells, key: Bytes, c: Cell)
    requires key in cells
    ensures DecksOf(cells[key := c]) == DecksOf(cells)[key := c.d]
  {
  }

  /** One request is answered as by the plain deques if and only if it is not an odd one. */
  lemma RequestExact(cells: Cells, q: Request)
    requires Sound(cells) && AllPlaced(cells) && Asks(q, cells.Keys)
    ensures (DecksOf(Act(cells, q).0), Act(cells, q).1) == Answer(DecksOf(cells), q) <==> !OddRequest(cells, q)
  {
    hide ActOn, MoveIn, Coherent, Apply, Move, Odd, OddMove, Placed;
    match q
    case On(key, c) =>
      var cell := ActOn(cells[key], c).0;
      ActExact(cells[key], c);
      OneDeck(cells, key, cell);
      var d := Apply(cells[key].d, c).0;
      assert DecksOf(cells)[key := cell.d][key] == cell.d && DecksOf(cells)[key := d][key] == d;
    case Between(src, dst, fromHead, toHead) =>
      var (src', dst', _) := MoveIn(cells[src], cells[dst], fromHead, toHead);
      MoveExact(cells[src], cells[dst], fromHead, toHead);
      OneDeck(cells, src, src');
      OneDeck(cells[src := src'], dst, dst');
      var decks := DecksOf(cells);
      var (a, b, _) := Move(cells[src].d, cells[dst].d, fromHead, toHead);
      assert decks[src := src'.d][dst := dst'.d][src] == src'.d && decks[src := a][dst := b][src] == a;
      assert decks[src := src'.d][dst := dst'.d][dst] == dst'.d && decks[src := a][dst := b][dst] == b;
  }

  /** The running size of every list is exactly its elements'. */
  ghost predicate Exact(cells: Cells)
  {
    forall k :: k in cells ==> cells[k].over == 0
  }

  lemma ActExactSize(cells: Cells, q: Request)
    requires Sound(cells) && Asks(q, cells.Keys) && !OddRequest(cells, q) && Exact(cells)
    ensures Exact(Act(cells, q).0)
  {
    hide ActOn, MoveIn, Coherent, Odd, OddMove;
    match q
    case On(key, c) =>
      ActSize(cells[key], c);
      ActCoherent(cells[key], c);
      CoherentSize(ActOn(cells[key], c).0);
    case Between(src, dst, fromHead, toHead) =>
      MoveSize(cells[src], cells[dst], fromHead, toHead);
      MoveCoherent(cells[src], cells[dst], fromHead, toHead);
      CoherentSize(MoveIn(cells[src], cells[dst], fromHead, toHead).0);
      CoherentSize(MoveIn(cells[src], cells[dst], fromHead, toHead).1);
  }

  /** A run without odd requests is the plain deques' run, and keeps every running size exact. */
  lemma {:induction false} RunIsPlain(cells: Cells, qs: seq<Request>)
    requires Sound(cells) && forall q :: q in qs ==> Asks(q, cells.Keys)
    requires forall i :: 0 <= i < |qs| ==>
               var now := ActAll(cells, qs[..i]).0; AllPlaced(now) && !OddRequest(now, qs[i])
    ensures (DecksOf(ActAll(cells, qs).0), ActAll(cells, qs).1) == AnswerAll(DecksOf(cells), qs)
    ensures Sound(ActAll(cells, qs).0) && (Exact(cells) ==> Exact(ActAll(cells, qs).0))
    decreases |qs|
  {
    hide Act, Answer, OddRequest, Coherent, Placed, Exact;
    if qs != [] {
      var n := |qs| - 1;
      var now := ActAll(cells, qs[..n]).0;
      forall i | 0 <= i < |qs[..n]| ensures var was := ActAll(cells, qs[..n][..i]).0;
                                            AllPlaced(was) && !OddRequest(was, qs[..n][i]) {
        assert qs[..n][..i] == qs[..i] && qs[..n][i] == qs[i];
      }
      RunIsPlain(cells, qs[..n]);
      RequestExact(now, qs[n]);
      ActSound(now, qs[n]);
      if Exact(cells) {
        ActExactSize(now, qs[n]);
      }
    }
  }

  /** Keys at the start of everything. */
  function Nothing(keys: set<Bytes>): (cells: Cells)
    ensures cells.Keys == keys
  {
    map k | k in keys :: Gone(map[])
  }

  lemma RunNone(cells: Cells)
    ensures ActAll(cells, []) == (cells, [])
  {
  }

  lemma RunStep(cells: Cells, qs: seq<Request>, q: Request)
    requires forall p :: p in qs + [q] ==> Asks(p, cells.Keys)
    ensures forall p :: p in qs ==> Asks(p, cells.Keys)
    ensures var (now, replies) := ActAll(cells, qs);
            ActAll(cells, qs + [q]) == (Act(now, q).0, replies + [Act(now, q).1])
  {
    forall p | p in qs ensures p in qs + [q] {}
    assert (qs + [q])[..|qs|] == qs;
  }

  /** A list pushed onto a missing key, and another element onto that: rows first, then a window. */
  function Rows(s: seq<Bytes>): (c: Cell)
  {
    Cell(Edited(Missing, s), 0, false, Some((0, |s|)), map[], 0)
  }

  lemma PushFresh(s: seq<Bytes>)
    requires s != [] && AllFit(s)
    ensures PushIn(Gone(map[]), s, false, false, true) == (Rows(s), Number(|s|))
  {
    hide ListBytes, Fits;
    assert [] + s == s;
    assert Outside(map[], 0, |s|) == map[];
  }

  lemma PushSecond(x: Bytes, y: Bytes)
    requires Fits(x) && Fits(y)
    ensures PushIn(Rows([x]), [y], false, false, true) ==
            (Rows([x]).(d := Edited(Edited(Missing, [x]), [x, y]), hot := true, row := Some((0, 2))), Number(2))
  {
    hide ListBytes, Fits;
    assert [x] + [y] == [x, y];
    assert Outside(map[], 0, 2) == map[];
  }

  lemma MoveFirst(src: Cell, x: Bytes, y: Bytes)
    requires src.hot && src.d.elems == [x, y] && |x| <= LIST_ELEM_FAST_MAX
    ensures MoveIn(src, Gone(map[]), true, true).1 == Cell(Edited(Missing, [x]), -1, true, None, map[], 0)
    ensures MoveIn(src, Gone(map[]), true, true).2 == Bulk(x)
  {
    hide ListBytes;
    assert Pushed([], [x], true) == [x];
  }

  /** Two elements pushed onto a, one by one; the first moved onto b; a pop of b.  The server says that b is
      missing and keeps the element. */
  lemma MovedThenPopped(a: Bytes, b: Bytes, x: Bytes, y: Bytes)
    requires a != b && Named(a) && Named(b) && Fits(x) && Fits(y)
    ensures var qs := [On(a, PushC([x], false, false, true)), On(a, PushC([y], false, false, true)),
                       Between(a, b, true, true), On(b, PopC(true, None))];
            var (cells, replies) := ActAll(Nothing({a, b}), qs);
            && replies == [Number(1), Number(2), Bulk(x), Nil] && cells[b].d.elems == [x]
            && Pop(cells[b].d, true, None) == (Missing, Bulk(x))
  {
    hide ListBytes, ActAll, PushIn, MoveIn, Named;
    var q0, q1 := On(a, PushC([x], false, false, true)), On(a, PushC([y], false, false, true));
    var q2, q3 := Between(a, b, true, true), On(b, PopC(true, None));
    var none := Nothing({a, b});
    PushFresh([x]);
    PushSecond(x, y);
    RunFour(none, q0, q1, q2, q3);
    var c0 := Act(none, q0).0;
    var c1 := Act(c0, q1).0;
    assert c1[a].d.elems == [x, y] && c1[a].hot && c1[b] == Gone(map[]);
    MoveFirst(c1[a], x, y);
    var c2 := Act(c1, q2).0;
    assert c2[b] == Cell(Edited(Missing, [x]), -1, true, None, map[], 0);
    assert PopIn(c2[b], true, None) == (c2[b], Nil);
  }

  /** The runs of one to four requests, one by one. */
  lemma RunFour(cells: Cells, q0: Request, q1: Request, q2: Request, q3: Request)
    requires Asks(q0, cells.Keys) && Asks(q1, cells.Keys) && Asks(q2, cells.Keys) && Asks(q3, cells.Keys)
    ensures var (c0, r0) := Act(cells, q0);
            var (c1, r1) := Act(c0, q1);
            var (c2, r2) := Act(c1, q2);
            var (c3, r3) := Act(c2, q3);
            && ActAll(cells, [q0]) == (c0, [r0]) && ActAll(cells, [q0, q1]) == (c1, [r0, r1])
            && ActAll(cells, [q0, q1, q2]) == (c2, [r0, r1, r2]) && ActAll(cells, [q0, q1, q2, q3]) == (c3, [r0, r1, r2, r3])
  {
    hide Act, ActAll, Asks;
    RunNone(cells);
    RunStep(cells, [], q0);
    RunStep(cells, [q0], q1);
    RunStep(cells, [q0, q1], q2);
    RunStep(cells, [q0, q1, q2], q3);
    assert [] + [q0] == [q0] && [q0] + [q1] == [q0, q1] && [q0, q1] + [q2] == [q0, q1, q2];
    assert [q0, q1, q2] + [q3] == [q0, q1, q2, q3];
    var (c0, r0) := Act(cells, q0);
    var (c1, r1) := Act(c0, q1);
    var (c2, r2) := Act(c1, q2);
    var r3 := Act(c2, q3).1;
    assert [] + [r0] == [r0] && [r0] + [r1] == [r0, r1] && [r0, r1] + [r2] == [r0, r1, r2];
    assert [r0, r1, r2] + [r3] == [r0, r1, r2, r3];
  }

  /** A list whose first element was popped; a search limited to 2^63 - 1 elements finds nothing in it. */
  lemma LimitWraps(k: Bytes, x: Bytes, y: Bytes)
    requires Named(k) && Fits(x) && Fits(y) && y != []
    ensures var qs := [On(k, PushC([x, y], false, false, true)), On(k, PopC(true, None)), On(k, PosC(y, 1, None, INT64_MAX))];
            var (cells, replies) := ActAll(Nothing({k}), qs);
            && replies == [Number(2), Bulk(x), Nil] && cells[k].d.elems == [y]
            && Pos(cells[k].d.elems, y, 1, None, INT64_MAX) == Number(0)
  {
    hide ListBytes, ActAll, PosAt, Pos, PushIn, Named, Fits;
    var q0, q1, q2 := On(k, PushC([x, y], false, false, true)), On(k, PopC(true, None)), On(k, PosC(y, 1, None, INT64_MAX));
    var none := Nothing({k});
    RunFour(none, q0, q1, q2, q2);
    PushFresh([x, y]);
    var c0 := Act(none, q0).0;
    assert c0[k] == Rows([x, y]);
    var c1 := Act(c0, q1).0;
    assert [x, y][1..] == [y] && [x, y][..1] == [x];
    assert c1[k].d.elems == [y] && c1[k].head == 1;
    LimitOnOne(y);
  }

  lemma LimitOnOne(y: Bytes)
    ensures PosAt([y], 1, y, 1, None, INT64_MAX) == Nil && Pos([y], y, 1, None, INT64_MAX) == Number(0)
  {
    assert Wrap64(1 + INT64_MAX) == INT64_MIN;
    assert Examined(1, 1, false, INT64_MAX) == (0, 0);
    ScannedNone([y], y, false, 0, -1);
    assert Limited(1, false, INT64_MAX) == (0, 1);
    PosOfOne(y);
  }

  lemma PosOfOne(y: Bytes)
    ensures Scanned([y], y, false, 0, -1, 0, 1) == [0]
  {
    var h := Matches([y], y);
    assert [y][0..1] == [y] && h[1..] == [];
    assert ScanUp(h, 0, Collector(0, 0, -1, [], false)) == Collector(0, 0, -1, [0], true);
  }
}
